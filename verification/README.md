# Verified model of the zoned-storage iSCSI target

This project models, in Dafny, the storage core of an iSCSI target that presents a flat, rewritable disk on top of
append-only zones, and proves what that core keeps and where it falls short. It covers

- the **zone translation layer**: the table from logical segments to physical addresses, the reverse map, the write
  buffer, the zone allocator with its list of open zones, and the copying garbage collector;
- the **zoned device** under it, a state machine of zones with write pointers and a limit on open zones;
- the **journal** beside it, from single bytes to recovery after a crash; and
- the **iSCSI transfer layer**: protocol data units on the wire, reassembly of write data, segmentation of read data,
  and negotiation of text keys (RFC 7143, sections 6.1, 6.2, 11.2, 11.7, 11.8 and 13).

## How it is built

Every operation appears as a function from state to state on plain values, and the theorems are about these functions.
Where the source changes objects in place, a class with the same fields and loops is proved to compute the function:
its methods say that the abstract state after the call is the function of the abstract state before, with the same
outcome, errors included. A sector is a number (the bytes of the sector); a map's iteration order is an argument of
the function and an output of the method, so a theorem about every order covers what the runtime may choose.

| layer | on values | invariants and theorems | in place |
|---|---|---|---|
| device | `Device` | `Device` | `EmulatorClass` |
| zones | `Pool` | `PoolSteps`, `OpenZones`, `Recency`, `Wedge`, `Aligned` | `ZoneManagerClass` |
| translation | `Segment`, `Ztl` | `Coherence`, `FlushSteps`, `WriteSteps`, `GcSteps`, `Collect`, `Bookkeeping`, `FlatDisk`, `Run`, `FlatArray`, `Interleave`, `Undisturbed`, `Race`, `Limits`, `WriteZone`, `Rounds`, `Witness`, `Endless`, `Lost` | `Tables`, `WriteBufferClass`, `Collector`, `Layer`, `Origin` |
| journal | `Log`, `Bytes`, `Codec`, `Frames` | `History`, `Chain`, `Recovery`, `Restored`, `Retention`, `Crash`, `Abandoned`, `Overtaken`, `Frames`, `ByteCrash` | `Wal`, `Restore` |
| transfer | `Pdus`, `DataOut`, `DataIn`, `WriteCommand`, `Text`, `Negotiation` | the same | classes and loops in the same modules |

The main results are `FlatArray.ReadsTheFlatArray`, `FlatArray.NoFlushRefused`, `Aligned.AlignedReads`,
`Aligned.LifetimeCapacity`, `WriteZone.InvariantIff`, `Rounds.EmergencyNeverEnds`,
`Interleave.CollectorInvisible`, `Abandoned.ReplayInterleaved`, `ByteCrash.FlushThenCrashBytes`,
`ByteCrash.CollectCrashBytes`, `Retention.LifeRetained`, `Frames.RecoverPrefix`, `Recovery.RecoverIsReplay`,
`Restore.Recover`, `Recency.OrderOfUse`, `Limits.VictimCostsLeast`, `Wedge.StuckForever`,
`WriteCommand.WholeWriteDelivered`, `WriteCommand.WriteCommandDoes`, `DataIn.AnyOrderRebuilds`,
`DataIn.HeadersOnTheWire`, `Pdus.StreamRoundTrip`, `Negotiation.NegotiateParams` and `Negotiation.NegotiateAgain`.

## What a caller must see to

The theorems about runs ask for *admissible* operations (`Run.Admissible`): writes of whole aligned segments inside
the disk, and collections whose victim has nothing buffered and is not being written, with no write or copy landing at
offset 0 of zone 0. Operations may be refused, and the run goes on. From a layer just created no flush ever is
(`FlatArray.NoFlushRefused`); from an arbitrary coherent state one may be, and the theorems that begin in such a state
ask that none is (`Run.FlushesHold`). In a configuration whose zones hold whole segments, with more zones than may be
open, whole segments are all that is asked: the rest is proved to hold (`Aligned.AlignedRuns`). The default
configuration (internal/config/defaults.go:15-24: 64 zones of 256 MiB, 14 of them open, segments of 8 KiB) is one, and
by `Aligned.LifetimeCapacity` it stores 3.5 GiB in its whole life. Each condition is one the code needs; what happens
without it is proved, in both directions where there are two, and `Witness`, `Lost` and `Endless` reach the failures
from a layer just created:

- offset 0 of zone 0 packs to the address that means *unmapped* (`Limits.ReadBackIffNotZero`);
- a write of less than a segment is stored at the zone's pointer, not at its place in the segment
  (`Limits.PartialReadBack`);
- a zone written to its end stays in the set of open zones and can never be closed, so the layer ends up unable to
  allocate (`Wedge.StuckForever`, `Wedge.FullNeverVictim`); the comment in the source that the zone will be marked full
  does not describe the code, which never calls `MarkFull`;
- a flush drops its buffer before it asks the device, and keeps nothing of it when it is refused
  (`Limits.RefusedFlushDrops`); only runs outside the admissible ones get there, such as one with a write of less than a
  segment (`Witness.FlushRefused`);
- the zone being written may be chosen for collection once it is closed; the layer then goes on writing into a zone
  that is free, hands it out a second time, loses what it had accepted and keeps writing past its end
  (`WriteZone.InvariantIff`, `WriteZone.AstrayLoses`, `WriteZone.AstrayStays`, `Lost.AcceptedThenLost`);
- collection reads the victim from the device only (`Limits.CollectionKeepsIffOnDevice`);
- a write past the end is refused but logged, and the journal cannot be recovered until the next checkpoint
  (`Limits.WritePastEndPoisons`, `Limits.CheckpointMends`);
- an unmap of no sectors zeroes the segment it lies inside, or the whole disk at address 0 (`Limits.UnmapNothing`); the
  one caller in the repository skips such ranges (internal/scsi/stubs.go:104);
- an emergency collection need not end, and a write that waits for it does not return (`Rounds.EmergencyNeverEnds`,
  `Endless.EmergencyGoesRound`); what it needs and what suffices are `Limits.EmergencyNeeds` and `Limits.EmergencyGives`;
- a migration is logged before its swap, so one that is abandoned leaves a record that replay follows
  (`Abandoned.ReplaysLiveIff`, `Overtaken.ReplayBringsBack`);
- a write is acknowledged when the journal, but not its data, is durable (`Crash.CrashKeeps`);
- a torn tail is not cut off, a checkpoint's table is outside its checksum, and the two scans of a journal have
  different limits (`Frames.TornTailHides`, `Frames.TornCheckpoint`, `Frames.LongCheckpointHides`);
- a write command with its final bit set runs on whatever data came with it, and one that needs no transfer may never
  run (`WriteCommand.FinalCommandRunsShort`, `WriteCommand.UnneededTransfer`).

Success itself is characterised: allocations, flushes and migrations succeed exactly when `OpenZones` says.

## Model

| member | source | states |
|---|---|---|
| `FlatArray.ReadsTheFlatArray` | internal/ztl/ztl.go:96-363 | After any admissible writes, unmaps, flushes, collections, commits, checkpoints and clock ticks from a fresh device, refused ones among them, reading any range, aligned or not, returns that slice of one flat array: the last stored write to each sector, or zero |
| `FlatArray.NoFlushRefused` | internal/ztl/buffer.go:115-163 | Over the whole life of a layer, in any configuration, no flush of an admissible run is refused, neither one asked for nor that of a zone that a write fills up |
| `Run.RunInv` | internal/ztl/ztl.go:96-363 | Every run of admissible operations of which no flush is refused keeps the whole invariant (coherence, exact reverse map and counters, LRU list, log that determines the table) and does to the disk what the operations, as far as they were stored, do to a flat array, whatever the state it starts from |
| `Run.StepInv` | internal/ztl/ztl.go:163-363 | The same for one operation, accepted or refused, including a write with emergency collections before it and a background cycle that stops part way |
| `Run.RunTakes` | internal/ztl/ztl.go:178-203 | A write of a run stores a beginning of its data, in whole segments, and is refused exactly when that is not all of it |
| `Run.CollectRefused` | internal/ztl/gc.go:139-164 | A collection that is refused stops before one of its migrations for want of a zone, and leaves exactly the migrations before that one done |
| `Run.StartInv` | internal/ztl/ztl.go:37-93 | A layer created over a fresh device satisfies the invariant and presents a disk of zeros |
| `Aligned.AlignedRuns` | internal/ztl/ztl.go:163-363 | When zones hold whole segments and there are more of them than may be open, as in the default configuration, any operations whose writes are of whole segments inside the disk are such a run: no flush is ever refused, and nothing else need be asked |
| `Aligned.AlignedReads` | internal/ztl/ztl.go:96-363 | So in such a configuration every read returns the slice of the flat array after any such operations |
| `Aligned.LifetimeCapacity` | internal/ztl/zone_manager.go:93-179 | There each write stores as much of its data as is left of the sectors of the zones that may be open, over the whole life of the layer and however much is unmapped between, or nothing while fewer zones are free than the emergency reserve |
| `Aligned.NeverCollects` | internal/ztl/zone_manager.go:316-344 | There no zone is ever closed, so no collection ever has a victim, and the other zones stay free for ever |
| `FlatDisk.ReadDisk` | internal/ztl/ztl.go:96-160 | From any coherent state any read, across segments, zones, buffer and device, returns the slice of the disk; it never fails |
| `FlatDisk.ReadMapped` | internal/ztl/ztl.go:131-156 | The part of a read in one mapped segment is found whole in the buffer or whole on the device, and is the data behind the segment |
| `FlatDisk.WriteFromDisk` | internal/ztl/ztl.go:178-203 | A write of whole segments, which no flush refuses, stores a beginning of its data in whole segments and touches no other sector; it is accepted exactly when that is all of the data |
| `FlatDisk.UnmapDisk` | internal/ztl/ztl.go:331-363 | An unmap zeroes exactly the segments it ranges over |
| `FlatDisk.UnmapMeets` | internal/ztl/ztl.go:331-334 | A range of 64-bit addresses zeroes exactly the segments it meets, a nonempty one exactly itself when aligned; an empty one meets the segment it lies inside, nothing on a boundary, and everything at address 0 |
| `WriteSteps.WriteSegmentCore` | internal/ztl/ztl.go:216-283 | A whole-segment write keeps the invariant, replaces the data behind its segment and behind no other; one that finds no zone changes nothing |
| `WriteSteps.UnmapRangeCore` | internal/ztl/ztl.go:339-360 | Unmapping a range of segments keeps the invariant and zeroes the data behind exactly those |
| `WriteSteps.GetWriteZoneCore` | internal/ztl/ztl.go:287-317 | Choosing the write zone keeps the invariant and all data, and the zone chosen has room for a segment at its tracked pointer |
| `FlushSteps.FlushCore` | internal/ztl/buffer.go:115-145 | A successful flush lands exactly on the device write pointer, empties the buffer of its zone, keeps the invariant and the data behind every segment |
| `FlushSteps.FlushEachCore` | internal/ztl/buffer.go:148-163 | The same for flushing any list of zones; exactly those buffers are emptied |
| `FlushSteps.FlushEachGoesOn` | internal/ztl/buffer.go:148-163 | A refused flush does not stop the others: every listed buffer is gone at the end, and the outcome is that of the first that was refused |
| `FlushSteps.FlushPoints` | internal/ztl/buffer.go:137-142 | An accepted flush leaves the tracked pointer of its zone behind what was flushed, whatever the state |
| `FlushSteps.LookupIs` | internal/ztl/buffer.go:67-112 | The buffer answers for some sectors exactly when it holds all of them, and then with those |
| `PoolSteps.AllocateFreeMoves` | internal/ztl/zone_manager.go:93-124 | An allocation takes the last free zone, an empty one, and otherwise changes only conditions; a failed one changes no pointer, no data and no free zone |
| `GcSteps.ClaimCore` | internal/ztl/gc.go:220-228 | Claiming a zone for a copy keeps every segment's data, and the zone was empty, is open, and has nothing mapped or buffered in it |
| `GcSteps.CopyCore` | internal/ztl/gc.go:237-243 | The copy is never refused while its zone is open, and disturbs no segment |
| `GcSteps.SwapCore` | internal/ztl/gc.go:245-268 | The swap installs the copy exactly when the segment is still where it was read from; otherwise the foreground wins and nothing behind any segment changes |
| `GcSteps.ReclaimCore` | internal/ztl/gc.go:176-191 | Resetting a zone that nothing maps into, nothing is buffered for and nothing writes to succeeds and disturbs no data |
| `Collect.GatherComplete` | internal/ztl/gc.go:150-157 | The segments gathered from the reverse map, in any iteration order, are exactly those mapped into the victim |
| `Collect.CollectZoneEffect` | internal/ztl/gc.go:139-192 | What a successful collection does, whatever is buffered: each segment of the victim starts a zone that was free, no other is touched, and before the reset nothing maps into the victim |
| `Collect.CollectZoneCore` | internal/ztl/gc.go:139-192 | Collecting a victim with nothing buffered that is not the write zone keeps the invariant |
| `Collect.CollectPreserves` | internal/ztl/gc.go:139-192 | A collection keeps the data of every segment if and only if the device already held it for every segment of the victim (and the segment sent to the unmapped address, if any, was zeros) |
| `Interleave.CollectorInvisible` | internal/ztl/gc.go:139-268 | For every interleaving of the collector's steps (check, read, allocate, log, copy, swap, settle, seal, reset) with foreground writes, accepted or refused for want of a zone, unmaps, flushes and commits, every segment holds what the foreground last asked for and had accepted |
| `Interleave.ResetLosesNothing` | internal/ztl/gc.go:159-183 | In every such interleaving nothing is mapped into the victim, and nothing is buffered for it, when its reset is issued |
| `Undisturbed.StepsCollect` | internal/ztl/gc.go:139-268 | With no foreground between them, some number of the collector's steps ends exactly as the collection in one piece, refused or not |
| `Abandoned.ReplayInterleaved` | internal/ztl/gc.go:231-254 | After every such interleaving replaying the whole history succeeds and gives each segment its live address, unless the last record about it announced a migration that was abandoned; then it gives the place of the abandoned copy |
| `Abandoned.ReplaysLiveIff` | internal/ztl/gc.go:231-254 | So the history replays to the live table exactly when no abandoned announcement is the last word on a segment that is elsewhere |
| `Overtaken.ReplayBringsBack` | internal/ztl/gc.go:220-268 | From every coherent state: an unmap of the victim's one live segment between the claim and the announcement of its migration leaves it unmapped, while the log, replayed, puts it at the abandoned copy |
| `Lost.UnmappedComesBack` | internal/ztl/gc.go:220-268 | The same as a run from a layer just created |
| `Race.WriteStands` | internal/ztl/ztl.go:232-257 | A migration that wins its swap between a write's reading of the old address and its setting of the new one: the write wins, and the reverse map still finds every segment |
| `Race.Miscounts` | internal/ztl/ztl.go:251-257 | But then the copy's zone counts a valid segment that nothing maps into it, and the victim has lost one too many |
| `Race.AbandonedIsSpent` | internal/ztl/gc.go:245-254 | A copy whose swap was lost is counted once and as dead, so its zone, once closed, is as good a victim as there is |
| `Bookkeeping.WriteSegmentExact` | internal/ztl/ztl.go:251-257 | A write keeps table and reverse map exact inverses and every zone's valid count equal to the number of segments mapped into it, at most its total |
| `Bookkeeping.UnmapRangeExact` | internal/ztl/ztl.go:339-360 | So does an unmap |
| `Bookkeeping.FlushEachExact` | internal/ztl/buffer.go:148-163 | So does a flush |
| `Bookkeeping.MigrateRecounts` | internal/ztl/gc.go:257-263 | A migration moves one count from the victim to a zone that was empty, and the reverse map follows |
| `Bookkeeping.CollectZoneExact` | internal/ztl/gc.go:139-192 | So does a whole collection, whatever is buffered for the victim |
| `Limits.FreeZoneLaw` | internal/ztl/gc.go:139-192 | A successful collection, whatever is buffered for the victim and whether or not it is being written, changes the number of free zones by exactly one minus the victim's live segments |
| `Rounds.CollectsIff` | internal/ztl/gc.go:139-192 | Where zones do not hold whole segments a collection succeeds exactly when there is a free zone for each live segment of its victim |
| `Pool.ScoreRange` | internal/ztl/zone_manager.go:26-32 | With no more valid than total segments the score lies between 0 and 1 |
| `Pool.VictimIsBest` | internal/ztl/zone_manager.go:316-344 | The victim is a candidate of largest score, the first of them, and there is none exactly when there is no candidate; what the score means is Pool.VictimIsFewest |
| `Pool.VictimIsFewest` | internal/ztl/zone_manager.go:26-32 | On the counters themselves: no zone that may be collected has a larger share of dead segments than the victim, compared by cross products, and every earlier one has a smaller share |
| `Limits.VictimCostsLeast` | internal/ztl/zone_manager.go:316-344 | In every state that satisfies the invariant the same holds of the segments really mapped into the zones, so of zones written equally often none would cost fewer copies than the victim |
| `Rounds.CollectFreezes` | internal/ztl/gc.go:139-192 | After any number of its migrations the victim of a collection is frozen and cannot be chosen again; after the collection, refused or not, it is not frozen |
| `Rounds.CycleTakesFirst` | internal/ztl/gc.go:122-136 | A background cycle collects the first eligible zone with the largest share of dead segments, and does nothing, successfully, when none is eligible |
| `Rounds.MovedAreSkipped` | internal/ztl/gc.go:197-208 | A migration of a segment that has moved does nothing; of one unmapped it only forgets what the reverse map has for offset 0 of zone 0 |
| `OpenZones.MakeRoomLru` | internal/ztl/zone_manager.go:101-106 | Room can be made exactly when the least recently used zone is not full; failing changes nothing |
| `OpenZones.AllocateFreeLru` | internal/ztl/zone_manager.go:93-124 | An allocation succeeds exactly when a zone is free and the front of the list is not full; the device never refuses it for its limit; the list invariant is kept |
| `OpenZones.GetOrOpenLru` | internal/ztl/zone_manager.go:128-159 | A zone in use can be made ready exactly when it is open already or the front of the list is not full; what becomes of the order of the list is Recency.ReopenedLast |
| `Recency.OrderOfUse` | internal/ztl/zone_manager.go:93-179 | After any sequence of allocations, reopenings, evictions and anything else between them, the list of open zones is in the order of their last uses |
| `Recency.EvictsOldest` | internal/ztl/zone_manager.go:163-179 | So the zone that is closed to make room is the open zone whose last use is longest ago |
| `Recency.ReopenedLast` | internal/ztl/zone_manager.go:138-158 | A zone made ready is last in the list; the others stay, in their order, but for the one that is closed to make room |
| `OpenZones.MarkFullReleases` | internal/ztl/zone_manager.go:182-203 | Marking a zone full, which the layer never does, finishes it and gives up its place in the list |
| `OpenZones.FlushZoneLru` | internal/ztl/buffer.go:115-145 | A flush of a buffered zone succeeds exactly when its zone can be made ready: the device write itself is never refused |
| `OpenZones.MigrateSegmentLru` | internal/ztl/gc.go:195-268 | A migration of a live segment fails only for want of a zone, and then changes nothing |
| `OpenZones.CollectZoneLru` | internal/ztl/gc.go:139-192 | List and set of open zones hold the same zones, each once, within the limit, and every zone open on the device is among them, after a collection too |
| `Wedge.FullZonesBounded` | internal/ztl/ztl.go:269-280 | Full zones stay in the open set, so at most as many zones are ever full as may be open, and when that many are, the layer is stuck |
| `Wedge.FullNeverVictim` | internal/ztl/zone_manager.go:325-334 | No full zone is ever chosen for collection, because it is still tracked as open |
| `Wedge.StuckForever` | internal/ztl/zone_manager.go:163-179 | Once the least recently used zone is full, whatever operations follow, with any arguments, accepted or refused, no zone is allocated again; a zone to write is found exactly while the write zone has room for a segment before its end |
| `Limits.ReadBackIffNotZero` | internal/ztl/segment.go:17-34 | A whole-segment write reads back exactly unless it lands at offset 0 of zone 0 with data that is not all zeros |
| `Limits.PartialReadBack` | internal/ztl/ztl.go:231-265 | After a write of less than a segment, reads inside the segment that stay within its first sectors, as many as were written, return those of the data, wherever the write was meant to go; any read past them returns zeros throughout |
| `Limits.UnmapNothing` | internal/ztl/ztl.go:331-334 | What an unmap of no sectors does at every address, and that it leaves the disk alone exactly when all it meets is zeros; the one caller in the repository skips such ranges (internal/scsi/stubs.go:104) |
| `Limits.WritePastEndPoisons` | internal/ztl/ztl.go:239-249 | A write past the last segment is refused but leaves a record; recovery from that history and any later entries in order succeeds exactly when there is a checkpoint among the later ones |
| `Limits.CheckpointMends` | internal/journal/recovery.go:20-49 | One checkpoint mends any log numbered below it: recovery then gives the table it was taken of |
| `Limits.CollectionKeepsIffOnDevice` | internal/ztl/gc.go:214 | A collection keeps a segment of its victim exactly when its place lies below the device pointer of the zone and it is not sent to the unmapped address, or it was zeros; every other segment it keeps |
| `Limits.RefusedFlushDrops` | internal/ztl/buffer.go:115-145 | A flush is refused exactly when its zone is not open and no room can be made; its buffer is dropped all the same, and each segment of the zone is left with what the device held for it |
| `Limits.EmergencyNeeds` | internal/ztl/gc.go:271-283 | An emergency whose collections are harmless and that succeeds had at least the reserve in free zones and zones without a mapped segment; so where nothing is garbage none succeeds |
| `Limits.EmergencyGives` | internal/ztl/gc.go:271-283 | It does succeed when free zones and collectable zones without a valid segment reach the reserve, given a cycle for each zone it lacks, and then moves nothing |
| `Witness.StuckAfterOneWrite` | internal/ztl/ztl.go:269-280 | Three zones of one sector, one of them open: after one accepted write the layer is stuck with two zones free, and the next write is refused |
| `Witness.WriteVanishes` | internal/ztl/segment.go:31-34 | A layer of one zone: its first write is accepted and reads back as zeros |
| `Witness.PoisonedJournal` | internal/ztl/ztl.go:239-249 | There a write past the end leaves a journal that cannot be recovered until a checkpoint is taken |
| `Witness.BufferedVictim` | internal/ztl/gc.go:214 | Four zones of three sectors with segments of two: after two accepted writes a background cycle takes the first zone while its data is buffered, succeeds, and the segment reads as zeros |
| `Witness.FlushRefused` | internal/ztl/buffer.go:115-145 | A segment, then one sector, then two that fill the zone, all accepted; the flush of the first segment is refused, and it reads as zeros |
| `Rounds.EmergencyNeverEnds` | internal/ztl/gc.go:271-283 | Where every zone in use was written once and is still live, and a few conditions on zone numbers hold, an emergency for one zone more than are free has, for every number of cycles, that many to run, each harmless and successful, and as many zones are free after them; the disk is the same |
| `Endless.EmergencyGoesRound` | internal/ztl/gc.go:271-283 | From a layer just created seven admissible operations, all accepted, lead to such a state |
| `Endless.DeadButOpen` | internal/ztl/gc.go:271-283 | A state between the two conditions: free zones and zones without a mapped segment reach the reserve, but the dead zone is open, not spent, and no emergency succeeds |
| `WriteZone.CoherentIff` | internal/ztl/gc.go:139-192 | A successful collection keeps the state coherent exactly when its victim had nothing buffered and was not being written |
| `WriteZone.InvariantIff` | internal/ztl/gc.go:139-192 | The same for the whole invariant |
| `WriteZone.GoesAstray` | internal/ztl/zone_manager.go:316-344 | Collecting the zone being written leaves it the write zone, on the free list and with all of its room |
| `WriteZone.AstrayAccepts` | internal/ztl/ztl.go:287-317 | From then on writes are accepted into it while there is room, and stay in the buffer of a zone that is free and empty on the device |
| `WriteZone.AstrayLoses` | internal/ztl/ztl.go:301-316 | When the room runs out the next allocation hands out the same zone, the write goes past its end, its flush is refused, and every segment mapped into it reads as zeros |
| `WriteZone.AstrayStays` | internal/ztl/ztl.go:290-299 | After that the pointer is past the end of the zone; the room left, an unsigned difference, wraps around, and the zone is kept for the writes that follow |
| `Lost.AcceptedThenLost` | internal/ztl/zone_manager.go:316-344 | From a layer just created: two writes and a flush, a background cycle whose victim is the write zone, a write that is accepted and reads back, and one that is refused, after which the accepted one reads as zeros |
| `Witness.AcknowledgedLost` | internal/ztl/ztl.go:206-210 | The first of those writes is acknowledged and its record durable, and after a crash it reads as zeros |
| `Witness.LongCheckpointLoses` | internal/journal/journal.go:268 | A disk of fourteen million segments: after a checkpoint and an accepted, committed write, recovery from the journal's bytes succeeds without the write |
| `Segment.PackUnpack` | internal/ztl/segment.go:17-29 | Unpacking returns the packed zone and offset exactly when they fit 24 and 40 bits |
| `Segment.UnpackPack` | internal/ztl/segment.go:17-29 | Every address is the packing of its own fields |
| `Segment.PackedUnmapped` | internal/ztl/segment.go:31-34 | Among locations in range, offset 0 of zone 0 alone packs to the unmapped marker |
| `Segment.PackedAs` | internal/ztl/segment.go:17-19 | The zone is in the high 24 bits of an address and the offset in the low 40 |
| `Device.EveryRunSane` | internal/backend/emulator/emulator.go:131-357 | Over every sequence of commands, refused ones included, the counter counts the open zones within the limit, pointers lie in their zones, a zone is full exactly at its end, and nothing is stored at or past a pointer |
| `Device.PerformSane` | internal/backend/emulator/emulator.go:131-357 | The same for one command |
| `Device.OpenAccepted` | internal/backend/emulator/emulator.go:131-170 | A zone is opened exactly when it is open already, or empty or closed with the limit not reached; each refusal has its own error and changes nothing |
| `Device.CloseAccepted` | internal/backend/emulator/emulator.go:173-192 | An open zone becomes closed and the counter falls; closing an empty or closed one changes nothing; a full one is an error |
| `Device.FinishAccepted` | internal/backend/emulator/emulator.go:195-221 | Any zone but a full one becomes full with its pointer at its end and its data as it was |
| `Device.ResetAccepted` | internal/backend/emulator/emulator.go:224-244 | Any zone becomes empty and blank, with its pointer at its start |
| `Device.WriteAccepted` | internal/backend/emulator/emulator.go:294-357 | A write is accepted exactly at the pointer of a zone that is open or can be opened, and within it, and stores its sectors there; one that would cross the end of the zone leaves the zone open; any other refusal changes nothing |
| `Device.ReadAccepted` | internal/backend/emulator/emulator.go:247-291 | A read is accepted exactly when all its sectors exist, or it asks for none, and returns each from its place in its zone |
| `EmulatorClass.Emulator.OpenZoneLocked` | internal/backend/emulator/emulator.go:131-158 | Computes the opening on values, within the class invariant |
| `EmulatorClass.Emulator.CloseZone` | internal/backend/emulator/emulator.go:173-192 | Computes the closing on values |
| `EmulatorClass.Emulator.FinishZone` | internal/backend/emulator/emulator.go:195-221 | Computes the finishing on values |
| `EmulatorClass.Emulator.ResetZone` | internal/backend/emulator/emulator.go:224-244 | Clears the zone's buffer in a loop and computes the reset on values; no other buffer changes |
| `EmulatorClass.Emulator.ReadSectors` | internal/backend/emulator/emulator.go:247-291 | The copy loop across zone boundaries returns the slice of the device read as one flat array, or the range error |
| `EmulatorClass.Emulator.WriteSectors` | internal/backend/emulator/emulator.go:294-357 | Copies into the zone's buffer at the pointer and computes the write on values, refusals included |
| `ZoneManagerClass.ZoneManager.Initialize` | internal/ztl/zone_manager.go:58-89 | Scanning the report builds the manager the report describes |
| `ZoneManagerClass.ZoneManager.EvictOldest` | internal/ztl/zone_manager.go:163-179 | Manager and device end as the eviction on values says, or unchanged; the zone closed is the open zone whose last allocation or reopening is longest ago |
| `ZoneManagerClass.ZoneManager.AllocateFree` | internal/ztl/zone_manager.go:93-124 | Manager and device end as the allocation on values says, the zone put back when the device refuses it; an allocated zone counts as used |
| `ZoneManagerClass.ZoneManager.GetOrOpen` | internal/ztl/zone_manager.go:128-159 | Manager and device end as the reopening on values says; the zone counts as used, and by the class invariant the list stays in the order of last uses |
| `ZoneManagerClass.ZoneManager.MarkFull` | internal/ztl/zone_manager.go:182-203 | Finishes the zone on the device and takes it off the list; the layer never calls it |
| `ZoneManagerClass.ZoneManager.MarkEmpty` | internal/ztl/zone_manager.go:206-227 | Clears the zone's counters and pointer and appends it to the free list |
| `ZoneManagerClass.ZoneManager.SelectGCVictim` | internal/ztl/zone_manager.go:316-344 | The scan with a running best returns the first eligible zone with the largest share of dead segments, compared by cross products of the counters, or none exactly when none is eligible |
| `ZoneManagerClass.ZoneManager.ReconcileFromDevice` | internal/ztl/zone_manager.go:368-385 | Each zone takes the condition and the pointer of the device and keeps its place and counters; the lists stay |
| `Tables.L2PTable.CAS` | internal/ztl/l2p.go:43-48 | Replaces the entry exactly when it is the expected one |
| `Tables.L2PTable.Snapshot` | internal/ztl/l2p.go:52-58 | The entry-by-entry copy is the table |
| `Tables.L2PTable.LoadSnapshot` | internal/ztl/l2p.go:62-70 | The table becomes the snapshot, or is unchanged when sizes differ |
| `Tables.P2LMap.IterateZone` | internal/ztl/p2l.go:54-63 | Yields each offset recorded for the zone once, in any order |
| `WriteBufferClass.WriteBuffer.Add` | internal/ztl/buffer.go:41-61 | Appends to the zone's buffer, created at the pointer when missing |
| `WriteBufferClass.WriteBuffer.Lookup` | internal/ztl/buffer.go:67-112 | Returns the overlap exactly when it is the whole request |
| `WriteBufferClass.WriteBuffer.Flush` | internal/ztl/buffer.go:115-145 | Buffer, manager and device end as the flush on values says, the buffer dropped even when the write fails |
| `WriteBufferClass.WriteBuffer.FlushAll` | internal/ztl/buffer.go:148-163 | Flushes every buffered zone in some order and reports the first error |
| `Collector.GCEngine.MigrateSegment` | internal/ztl/gc.go:195-268 | Table, maps, zones, device and journal end as the migration on values says |
| `Collector.GCEngine.CollectZone` | internal/ztl/gc.go:139-192 | The same for the whole collection, for the order in which the reverse map yielded its offsets |
| `Collector.GCEngine.RunCycle` | internal/ztl/gc.go:122-136 | The same for one background cycle |
| `Collector.GCEngine.RunEmergencyGC` | internal/ztl/gc.go:271-283 | The loop ends as the emergency on values says; before its bound it stops only when more cycles would change nothing |
| `Layer.ZTL.Read` | internal/ztl/ztl.go:96-160 | The loop over segments returns what reading on values returns, to which ReadsTheFlatArray applies |
| `Layer.ZTL.Write` | internal/ztl/ztl.go:163-213 | Emergency collection, loop over segments and commit end in the state of the write on values, whatever step fails |
| `Layer.ZTL.WriteSegment` | internal/ztl/ztl.go:216-283 | The same for one segment |
| `Layer.ZTL.GetWriteZone` | internal/ztl/ztl.go:287-317 | The same for the choice of the write zone |
| `Layer.ZTL.Flush` | internal/ztl/ztl.go:320-328 | The same for a flush of every buffered zone |
| `Layer.ZTL.Unmap` | internal/ztl/ztl.go:331-363 | The same for an unmap |
| `Layer.New` | internal/ztl/ztl.go:37-93 | Fails exactly when a segment has no sectors or the device no segment; otherwise the layer starts empty over the device's report |
| `Restored.ReportIs` | internal/ztl/zone_manager.go:58-89 | The manager over a device just found has on its free list the empty zones and on its open list the open ones, each once and ascending, and takes conditions and pointers from the device |
| `Origin.Begin` | internal/ztl/ztl.go:37-93 | Device, journal and layer created together are in the start state from which the run theorems hold |
| `History.WriteSegmentLogged` | internal/ztl/ztl.go:237-249 | A write keeps the log a complete history: replaying all of it, durable and pending, gives the live table |
| `History.CollectZoneLogged` | internal/ztl/gc.go:231-254 | So does a successful collection with no foreground between its steps |
| `History.LoggedCheckpoint` | internal/journal/checkpoint.go:14-45 | So does a checkpoint, which holds the table that the entries before it describe |
| `Chain.LifeLinked` | internal/ztl/ztl.go:232-249 | Over the whole life of a layer the old address in every update record is the new one of the record before it about the same segment, or unmapped for the first |
| `Chain.WriteCommits` | internal/ztl/ztl.go:163-213 | An accepted write leaves nothing pending; a refused one commits nothing, and what it logged is pending behind what was |
| `Chain.FlushCommits` | internal/ztl/ztl.go:320-328 | A flush commits exactly when no buffer was refused |
| `Chain.WriteZoneTold` | internal/ztl/ztl.go:287-317 | The write zone is kept while it has room for a segment; otherwise the last free zone is taken and announced in the log, or there is no write zone |
| `Chain.WriteTold` | internal/ztl/ztl.go:232-249 | A segment written adds one entry, which says where the segment was and where the table now has it; one that finds no zone adds none |
| `Chain.UnmapTold` | internal/ztl/ztl.go:339-360 | An unmap adds an entry for exactly the mapped segments of its range, in ascending order, and commits nothing |
| `Chain.MigrateTold` | internal/ztl/gc.go:231-254 | A migration adds at most one entry; one that succeeds adds it exactly when the segment was still in place, and the table follows it |
| `Chain.CollectTold` | internal/ztl/gc.go:139-192 | A collection that gets to its reset commits its migrations and, last, the reset, behind all that was pending; one refused before commits nothing |
| `Chain.CheckpointTold` | internal/journal/checkpoint.go:14-45 | A checkpoint is durable at once, behind all that was pending, under the next number and with the whole table |
| `Recovery.RecoverIsReplay` | internal/journal/recovery.go:20-63 | Loading the latest checkpoint and replaying the later records gives the same table as replaying the whole log, for snapshots taken segment by segment while the log grew |
| `Recovery.SnapshotStands` | internal/journal/recovery.go:27-49 | For each segment, a snapshot entry caught at its own moment plus the later records gives the address the whole log gives |
| `Recovery.RecoverTwice` | internal/journal/recovery.go:20-71 | Recovering again over what recovery left changes nothing |
| `Recovery.RecoverSucceeds` | internal/journal/recovery.go:20-63 | Recovery succeeds exactly when the latest checkpoint has the size of the table and every later record names a segment and a zone that exist |
| `Recovery.AboveAre` | internal/journal/journal.go:281-285 | The records replayed are exactly those numbered above the checkpoint, each as often as it occurs |
| `Recovery.LatestIsLargest` | internal/journal/checkpoint.go:81-90 | The checkpoint found has the largest number |
| `Crash.RestartReads` | internal/journal/recovery.go:20-71 | A restarted layer reads every range as the device holds it at the recovered addresses |
| `Crash.FlushThenCrash` | internal/ztl/ztl.go:320-328 | After a successful flush of every buffered zone, losing all memory and recovering gives the same table and the same result for every read |
| `Crash.CrashKeeps` | internal/ztl/ztl.go:206-210 | After a commit and a crash recovery gives the table back, and a segment reads as before exactly when it had reached the device or was zeros: acknowledged writes still buffered are lost |
| `Crash.CollectCrash` | internal/ztl/gc.go:159-173 | After a crash with any number of a collection's pending entries in the journal, every segment resolves to the data it had with as many of the entries that were pending before the collection; so each about which nothing was pending keeps its data, and every one does once the earlier entries are through |
| `Crash.CollectCrashEarly` | internal/ztl/gc.go:159-268 | So does a crash at any step before the commit, in the middle of a migration too |
| `Crash.ResetAfterCommit` | internal/ztl/gc.go:166-183 | When the victim is reset the committed journal replays to a table with no entry in it, so the reset takes nothing |
| `Retention.LifeRetained` | internal/ztl/gc.go:166-183 | Over the whole life of a layer, after any admissible operations, no zone that a crash could still need has been reset: every table that the durable entries and any number of the pending ones describe is of zones in use |
| `Retention.RunRetained` | internal/ztl/gc.go:166-183 | The same for every run from any state in which it holds |
| `Retention.StepRetained` | internal/ztl/gc.go:166-183 | The same for one operation, accepted or refused |
| `Restore.Recover` | internal/journal/recovery.go:20-71 | The table ends as recovery over the journal's bytes says. When it succeeds each zone has the condition and pointer of the device, whatever the resets marked; the free list is the old one followed by the zones of the replayed resets in order; those count nothing and are neither open nor frozen; the other zones keep their counts, and the open ones their order. An error is the first one met |
| `Restored.RecoveredManager` | internal/ztl/zone_manager.go:206-227 | The same of the manager alone, for any records that name zones it knows |
| `Bytes.PutGet` | internal/journal/record.go:54-61 | A number written in some bytes, most significant first, is read back cut to them |
| `Bytes.GetPut` | internal/journal/record.go:88-93 | Every string of bytes is the writing of the number it spells |
| `Bytes.MostSignificantFirst` | internal/journal/record.go:54-61 | The most significant byte comes first |
| `Codec.MarshalUnmarshal` | internal/journal/record.go:52-96 | A record is read back from its encoding, whatever follows it and whatever the checksum function |
| `Codec.UnmarshalMarshal` | internal/journal/record.go:72-96 | Whatever decodes starts with the encoding of what it decodes to |
| `Codec.CheckpointRoundTrip` | internal/journal/record.go:115-153 | A checkpoint is read back with its table |
| `Codec.RecordLayout` | internal/journal/record.go:9-68 | A record is 49 bytes: magic number, checksum of what follows it, kind, and five numbers of eight bytes, each at its place |
| `Codec.CheckpointLayout` | internal/journal/record.go:115-130 | After the record come the entries of the table, eight bytes each, and the record counts them |
| `Frames.ReadPrefix` | internal/journal/journal.go:255-289 | From every byte prefix of a journal, reading returns exactly the records of the whole frames, in order and above the given number, up to the first frame longer than 100 MiB |
| `Frames.ScanPrefix` | internal/journal/checkpoint.go:50-97 | From every byte prefix, the scan finds the checkpoint of largest number among the whole frames, up to the first longer than 1 GiB |
| `Frames.MaxPrefix` | internal/journal/journal.go:57-100 | Opening a journal cut anywhere finds the largest number among the whole frames |
| `Frames.NextIsFresh` | internal/journal/journal.go:102-105 | So the next number exceeds every one that survived |
| `Frames.RecoverPrefix` | internal/journal/recovery.go:20-63 | Recovery from a journal cut at any byte is recovery from its whole entries |
| `Frames.ReplayedPrefix` | internal/journal/recovery.go:27-36 | What is replayed is the records of the whole entries numbered above the latest checkpoint |
| `Frames.BadFrame` | internal/journal/journal.go:276-283 | A whole frame that does not decode stops the reader, which never sees what follows it, while both scans pass over it |
| `Frames.FrameTaken` | internal/journal/journal.go:259-275 | Which whole frames each of the three loops takes, by their length |
| `Frames.VisibleIs` | internal/journal/journal.go:259-275 | How many entries are whole and short enough, characterised by the lengths of their frames |
| `Frames.LongCheckpointHides` | internal/journal/journal.go:268 | A checkpoint between the two limits stops the reader but not the scan: recovery gives its table and drops everything logged after it, which is right exactly when that changes nothing |
| `Frames.TornTailHides` | internal/journal/journal.go:28-54 | With part of a torn record left in the file, frames appended after reopening are read exactly when nothing was left over or they hold nothing to read |
| `Frames.TornCheckpoint` | internal/journal/record.go:134-153 | The checksum does not cover a checkpoint's table. Of one torn inside it with frames written after it: while they do not fill the gap they are all hidden and recovery is from what came before; as soon as they fill it the torn one is taken, with their bytes as addresses, and reading goes on from the middle of a frame; when they fill it exactly recovery gives that table |
| `ByteCrash.StepTyped` | internal/journal/journal.go:133-184 | Every operation, successful or not, logs only entries that fit the record format |
| `ByteCrash.RunTyped` | internal/journal/journal.go:133-184 | So does every run |
| `ByteCrash.CutRecovers` | internal/journal/journal.go:187-215 | A commit cut at any byte recovers as the durable entries and some number of the pending ones |
| `ByteCrash.CommitCrashBytes` | internal/journal/journal.go:187-215 | Recovery from a commit cut at any byte succeeds and gives the table that some prefix of the history, with all that was durable, describes |
| `ByteCrash.FlushThenCrashBytes` | internal/ztl/ztl.go:320-328 | FlushThenCrash from the bytes of the journal file |
| `ByteCrash.CollectCrashBytes` | internal/ztl/gc.go:166-173 | CollectCrash for a commit cut at any byte |
| `Wal.MarshalRecord` | internal/journal/record.go:52-68 | The buffer filled field by field, checksum last, is the encoding |
| `Wal.ScanMaxLSN` | internal/journal/journal.go:57-100 | The loop over frames finds the largest number, passing over invalid records |
| `Wal.ReadRecords` | internal/journal/journal.go:255-289 | The loop over frames returns the records read, stopping at the first bad one |
| `Wal.ReadLatestCheckpoint` | internal/journal/checkpoint.go:50-97 | The loop keeps the checkpoint of largest number, skipping invalid ones |
| `Wal.Journal.Open` | internal/journal/journal.go:28-54 | Opens any file as it is and goes on from the largest number in it |
| `Wal.Journal.LogL2PUpdate` | internal/journal/journal.go:133-152 | Adds one pending payload, the frame of the next entry; the file is unchanged |
| `Wal.Journal.GroupCommit` | internal/journal/journal.go:187-215 | The file grows by exactly the frames of the pending entries, in order |
| `Wal.Journal.WriteCheckpoint` | internal/journal/checkpoint.go:14-45 | Appends the frame of a checkpoint of the table and commits it with everything pending before it |
| `DataOut.ReassemblyIsLast` | internal/iscsi/data_out.go:29-52 | After any sequence of pieces, overlapping, out of order or past the first capacity, byte i is that of the last piece covering it, or zero in a hole; the length is the furthest end |
| `DataOut.AddFails` | internal/iscsi/data_out.go:39-49 | A copy fails exactly when its 32-bit end wraps so that it starts past the buffer, never for a piece ending below 2^32 |
| `DataOut.AddIs` | internal/iscsi/data_out.go:29-52 | A copy that does not fail leaves the buffer reaching to the 32-bit end of the piece, with as much of the piece in it as fits and the rest as it was |
| `DataOut.WholeAssembles` | internal/iscsi/data_out.go:29-52 | Pieces of one whole assemble to it exactly when they reach its end and leave out no byte but zeros |
| `DataOut.DataOutBuffer.Add` | internal/iscsi/data_out.go:29-52 | Growing and copying in place computes the addition on values |
| `DataOut.ReassemblyMap.InitBuffer` | internal/iscsi/data_out.go:75-79 | A task tag gets a new empty buffer; the others are untouched |
| `DataOut.ReassemblyMap.AddPDU` | internal/iscsi/data_out.go:83-106 | The PDU goes to the buffer of its task tag; the final one takes the buffer out and returns its contents; an unknown tag is an error that changes nothing |
| `WriteCommand.WriteDelivered` | internal/iscsi/connection.go:160-227 | A write with the final bit clear and short immediate data asks for exactly the rest, runs nothing while its data comes, and on the final Data-Out runs the command on the immediate data overlaid by the solicited data, whatever other commands do between |
| `WriteCommand.WholeWriteDelivered` | internal/iscsi/connection.go:160-227 | When the pieces are of the initiator's data and leave no byte out, the command runs on exactly that data, for every split and order with the final bit last |
| `WriteCommand.CommandAwaits` | internal/iscsi/scsi_cmd.go:53-88 | The command is remembered with its immediate data in its buffer, and the transfer asked for is exactly the rest |
| `WriteCommand.FinalCommandRunsShort` | internal/iscsi/scsi_cmd.go:53-57 | A write with its final bit set runs on the initiator's data if and only if it brought all of it; what is missing never reaches it, whatever Data-Outs follow |
| `WriteCommand.UnneededTransfer` | internal/iscsi/scsi_cmd.go:73-88 | A write that brings all its data with the final bit clear runs at once exactly when InitialR2T is off; otherwise nothing that answers the transfer ever runs it |
| `WriteCommand.OtherCommandRuns` | internal/iscsi/scsi_cmd.go:90-92 | A command without the W bit, such as a read, runs at once on no data, with the 16 bytes of its CDB; nothing is remembered, and the sequence number advances by one |
| `WriteCommand.WriteCommandDoes` | internal/iscsi/scsi_cmd.go:44-88 | What a write command does in every case, from its bytes: it runs at once on exactly the data that came if its final bit is set, or if InitialR2T is off and no data is missing; otherwise its buffer holds that data and the transfer asked for is the rest, in 32-bit arithmetic; it is remembered exactly when data is missing |
| `WriteCommand.DataOutDoes` | internal/iscsi/connection.go:191-227 | What a Data-Out does in every case: ignored under an unknown tag, added when not final, and when final it takes the buffer out, forgets the task and runs what was remembered, if anything was, on all that was assembled |
| `WriteCommand.Connection.HandleSCSICommand` | internal/iscsi/connection.go:160-188 | Pending maps, buffers, sequence number and events end as the command on values says, which WriteCommandDoes and OtherCommandRuns pin down case by case |
| `WriteCommand.Connection.HandleDataOut` | internal/iscsi/connection.go:191-227 | The same for a Data-Out, which DataOutDoes pins down |
| `DataIn.ChunksInOrder` | internal/iscsi/data_in.go:20-73 | Chunks are within the limit, sequence numbers consecutive, offsets contiguous, and the final bit on the last alone |
| `DataIn.AnyOrderRebuilds` | internal/iscsi/data_in.go:12-75 | The chunks, handed to a reassembly buffer in any order, rebuild the data |
| `DataIn.OverTheWire` | internal/iscsi/data_in.go:61-64 | What is written is read off the wire as the same chunks |
| `DataIn.HeadersOnTheWire` | internal/iscsi/data_in.go:36-64 | Every PDU sent, and every one read back off the wire, has operation code 0x25, the flags, LUN, task tag, all ones for the transfer tag, StatSN, ExpCmdSN, MaxCmdSN, DataSN, offset and residual each in its bytes; read back, its length bytes spell the length of its data |
| `DataIn.SendDataIn` | internal/iscsi/data_in.go:12-75 | The loop writes those PDUs back to back, one empty PDU for no data, 65536 bytes at most in each for a limit that is not positive; their headers are those of HeadersOnTheWire |
| `Pdus.ReadBack` | internal/iscsi/pdu.go:159-226 | Whatever follows on the stream, a PDU is read back, its length stamped and its padding consumed, exactly when its data is below 2^24 bytes and its additional headers are as long as its header says |
| `Pdus.StreamRoundTrip` | internal/iscsi/pdu.go:159-226 | Any list of PDUs written back to back is read back in order, and what follows them is left |
| `Pdus.WireLayout` | internal/iscsi/pdu.go:194-226 | On the wire come the header with the length of the data in bytes 5 to 8, additional headers, data, and fewer than four zeros up to a multiple of four |
| `Pdus.ReadTakes` | internal/iscsi/pdu.go:159-189 | What is read from any stream: header, four bytes of additional headers for each that byte 4 counts, as much data as bytes 5 to 8 spell, and what fills it up to a multiple of four |
| `Pdus.CutOff` | internal/iscsi/pdu.go:159-189 | A PDU cut off anywhere, even in its padding, is not read |
| `Pdus.ReadPDU` | internal/iscsi/pdu.go:159-189 | Reads header, additional headers and padded data from the connection, or fails when it ends first |
| `Pdus.WritePDU` | internal/iscsi/pdu.go:194-226 | Writes the stamped header, additional headers, data and padding |
| `Text.ParseSerialize` | internal/iscsi/params.go:64-95 | Parsing what was serialized, in whatever order the map yields its keys, gives the map back exactly when no key contains an equals sign and nothing contains a NUL |
| `Text.TakenAre` | internal/iscsi/params.go:64-82 | From any pieces a key is parsed exactly when one of them is that key, an equals sign and a value, and the last such piece gives the value |
| `Text.SplitJoins` | internal/iscsi/params.go:64-66 | The pieces, joined by NULs, are the text |
| `Text.ParseKeyValuePairs` | internal/iscsi/params.go:64-82 | The loop over pieces computes the parse |
| `Text.SerializeKeyValuePairs` | internal/iscsi/params.go:86-95 | The loop over the map writes each key once, in some order; what it writes parses back to the map exactly when no key contains an equals sign and nothing contains a NUL |
| `Text.ItoaAtoi` | internal/iscsi/params.go:224-230 | A 64-bit number is read back from its decimal form |
| `Text.AtoiIs` | internal/iscsi/params.go:224-230 | A text is a number exactly when it is digits, with at most one sign before them, whose value fits 64 bits |
| `Text.ItoaIs` | internal/iscsi/params.go:224-230 | The decimal form has no leading zero, and a minus sign exactly for a negative number |
| `Negotiation.NegotiateParams` | internal/iscsi/params.go:112-221 | Whatever order the map yields its keys: DefaultTime2Wait is settled to the larger of the two offers and the other numbers to the smaller, a malformed or negative value counting as the named default; ImmediateData is on if both want it, the other switches if either does; digests are None; the answer is what was settled, in decimal or as Yes or No; declarations are taken unanswered; a key not offered keeps the value of the target; any other name is NotUnderstood |
| `Negotiation.NumbersByKey` | internal/iscsi/params.go:118-171 | The numbers, key by key |
| `Negotiation.SwitchesByKey` | internal/iscsi/params.go:173-199 | The switches, key by key |
| `Negotiation.TextsByKey` | internal/iscsi/params.go:113-117 | Digests and declarations, key by key |
| `Negotiation.OthersByName` | internal/iscsi/params.go:200-221 | Which names are answered NotUnderstood, and which get no answer |
| `Negotiation.NegotiateAgain` | internal/iscsi/params.go:112-221 | Offering the answers again against what was settled gives the same answers and settles the same parameters |

## Left out

- Locks, goroutines, tickers and contexts: a public operation is one step, except in `Interleave`, where the collector
  moves step by step between foreground operations on whole segments; there the reset and the return of the victim to
  the free list are one step, and the settling of the reverse map and counters after a swap is one step. Of collector
  steps inside a foreground write only the one of `Race` is treated, and two collectors at once are not.
- Runs after a flush that was refused, which no admissible run from a layer just created has: one such flush, and
  exactly when it is refused, is `Limits.RefusedFlushDrops`; afterwards the tracked pointer of its zone is ahead of the
  device's. `Wedge.StuckForever` covers such runs too.
- `Limits.EmergencyNeeds` and `Limits.EmergencyGives` do not meet: `Endless.DeadButOpen` is a state between them, and
  which such states an emergency gets out of depends on the order in which open zones are closed.
- Operation after recovery beyond reads: recovery rebuilds the table only, not the reverse map, the counters or the
  write zone, and appends reset zones to a free list that may hold them already.
- Several crashes with torn tails in one journal: what the first one hides is proved in `Frames`.
- Sectors as bytes: a sector is one number, so the checks that a length is a multiple of 512 are not modelled.
- 64-bit overflow of addresses, write pointers, sequence numbers and counters: they are unbounded, except in
  `Ztl.LastLBA`, `Ztl.Remaining`, the address packing and the record format, where width decides the outcome.
- `Collector.GCEngine.RunEmergencyGC`: takes a bound on collections, which the loop of the source does not have,
  because that loop need not end (`Rounds.EmergencyNeverEnds`); before the bound it ends as the source does, and what
  the bound hides is a loop that goes on.
- `Layer.ZTL.Write`: takes the same bound for the emergency collections before it, because it calls that loop.
- `WriteCommand.Connection.HandleDataOut` says nothing about the state when a Data-Out wraps around 2^32, because the
  original then stops with a run-time error.
- A layer with no journal, and the answers of the journal's file operations: writing and syncing always succeed.
- The time stamps of write buffers and the choice of buffers to flush by age: any flush may happen at any time.
- The ratio that triggers a background cycle, and all statistics: any cycle may happen at any time.
- Scores are exact rationals, not floating-point numbers.
- The content of SCSI responses, the other header fields of a ready-to-transfer PDU, sense data, residual counts and the
  execution of commands: asking for data and running a command on data are events.
- Login, CHAP, NOP, task management, logout, text requests and session handling; `SerializeKeyValueList`.
- The device backends that speak to hardware, the dashboard, the REST interface, metrics and configuration.
