# Drivers and protocols of an early Mac OS X, modelled in Dafny

This project models nine self-contained algorithms from the driver and AppleTalk
sources and proves what they are for. `dafny verify dfyconfig.toml` checks all of it.

## What is modelled

**MESH SCSI transfers** (`MeshProgram`, `MeshCompiler`, `MeshCapacity`, `MeshMachine`,
`MeshTransfer`, `MeshRerun`, `MeshSession`, `MeshController`, `MeshJoin`). `updateCP`
compiles a scatter/gather transfer into a DBDMA channel program. `MeshProgram` says what
it emits and, separately, has a checker that knows only the physical address of every
byte of the transfer; `MeshCompiler` proves the one right by the other. `MeshMachine`
runs a checked program byte by byte, with the SCSI bus and the DMA channel interleaved
freely through a 16-byte FIFO. `MeshTransfer` proves the accounting at every stop and
that no run hangs; `MeshRerun` says exactly what a stop leaves in memory, also when the
alignment count is gone; `MeshSession` puts batches, stops, programs run again, saved
pointers and reconnections together; `MeshCapacity` settles when a program fits its
area; `MeshController` is the code itself, on an array and on fields, and `MeshJoin`
shows that its calls are the steps of the session. The memory cursor is any function
that meets the contract of `IOMemoryCursor`: non-empty contiguous segments, at most 15 a
call, in order, of at most 0xF000 bytes together. Because of that contract the branch of
`updateCP` for a group of length 0 cannot be reached.

**SCSI messages** (`MessageIn`, `MessageOut`). The byte state machine that cuts a
Message-In phase into messages, with its 16-byte buffer and the counter, three bytes of
padding and the other fields that follow it in the object, and the queueing and putting
out of the messages that start a command.

**Two-bank flash store** (`Checksums`, `NvramImage`, `NvramStore`). Seal, erase, each
byte write, read-back with swap, and power loss are steps of their own. The proofs
assume that the erase is atomic, that clients leave the signature byte alone, that the
32-bit generation does not wrap, which holds by itself for as many syncs as it is short
of its limit, and that a half-written bank is not a valid image of
something else; the last is reduced to a property of the image's own copies with holes,
whatever cells a device leaves erased. The device's status is an argument of each step
and may be wrong.

**Audio output ring** (`AudioRing`, `AudioEngine`, `AudioDriver`, `AudioJoin`,
`AudioClients`). The ring refines an endless tape of summed samples; the engine's
delayed stop leaves silence; `AudioJoin` shows that the calls on the arrays are the
engine's steps. Samples are integers, `clipToOutputStream` is any function of one mixed
sample, positions count samples (frame times channels), one output stream stands for
each. Clients are assumed to write between the play head and one lap past the erase
head, and the play head to move less than a lap per erase, with the erase head on.

**Read-write lock** (`RwLock`). One step is the test of `valid`, which every function
makes without the mutex, or one stretch of code under the mutex. Any number of requests
may be parked, woken (also spuriously) or competing for the mutex again. The code is
under `ASP_LOCKS` and is modelled as written.

**PS/2 controller** (`Ps2`, `Ps2Controller`). Two devices share a port; a read that
expects a byte holds one back. Arrival streams are arbitrary; a stream that ends means
nothing more arrives.

**ASP over TCP** (`AspFraming`, `AspSession`, `AspStatus`). Packet framing over a byte
stream with short reads and retries, and the relocation of the server status block.

**Time base** (`TimeBase`) and **NBP** (`Nbp`). Fixed-point scaling in wrapping machine
arithmetic; packed tuples, walked by their own lengths and deduplicated.

`Bytes`, `Common` and `Modulus` hold what several modules share.

## Where the code does less than it promises

Each of these is a theorem with its exact condition, or a counterexample for every input
of a stated kind.

- `updateCP`: the head of a misaligned read may be longer than the first segment (a
  resumed transfer with a few bytes left), and then the descriptor is damaged; a length
  of 2^31 or more compiles to nothing.
- `updateCP` allows 15 segments per group, but its 16-slot slack holds only 9, or 11
  without the synchronous postamble.
- A misaligned read that is stopped by a message before its first byte, and then started
  again, delivers everything but its head, which stays in the side buffer: the stop has
  cleared the alignment count, and the program is not compiled again. It is complete
  exactly when there is no head, the stop came before the batch size was stored, or the
  side buffer held the right bytes already.
- A read stopped inside a misaligned head writes the whole side buffer to memory, so the
  rest of the head, which has not come yet, is overwritten with stale bytes.
- The MESH accounting is right everywhere but at the two slots of the preamble where the
  counter is still to be stored; in every group but the first it is off there by the
  length of the group, and then by that length modulo 256.
- On reconnection SCSI-2 restores the saved pointer; the driver goes on from where it
  stopped. They agree exactly when a save came last.
- Extended messages are framed right with counts 1 to 14. From 15 on the 17th byte
  overwrites the counter, and only particular values of it, up to count 18, end the
  message in the right place; a 21st byte overwrites more of the object. Count 0 (256
  bytes) and counts above 128 end after one byte.
- `setupMsgO` with nothing queued, as after an anomaly in the command stage, lets a size
  wrap and puts out 256 bytes.
- A mouse read with a non-empty keyboard queue lets a newer keyboard byte overtake.
- A retry of `SPGetRequest` after a reply that did not fit takes payload for a header. A
  negative length passes its size check and goes to `recv` as a huge size; so does a
  write that starts behind its end in `SPWrtContinue`.
- `SPNewStatus` checks the old block's size only, so the new one may reach past the
  static buffer, and a block whose icon offset or name length is wrong is copied from
  outside itself; its offset fields follow the bytes they point to only in the body.
- The range check of the flash store's `read` and `write` lets a sum through that wraps
  32 bits.
- `mixAndClip` stores outside its buffers exactly when it starts outside or the sum of
  its arguments wraps.
- All buffers of an audio client share the frame count of the last registration; a
  transfer leaves an earlier one exactly when that holds fewer frames.
- A new NBP tuple with a name of more than 32 bytes is copied past the room for it.
- A PS/2 request that fails at a comparison loses the byte it read there, and no other.
- `at_rwl_destroy` does not stop a request that has tested `valid` and does not have the
  mutex yet: it gets the destroyed lock, and can never give it back.
- The time-base ratio is wrong for bus speeds of 2^31 and above. The split
  multiplication is right for every register value: wrapping cancels modulo 2^64.
- The audio engine's stop test is safe exactly when the loop count noted does not lag
  behind the frame noted.
- The generation of the flash store may wrap to 0; that image is never chosen.
- The header checksum of a flash image takes 0 and 255 for the same; every other single
  wrong byte of the image is noticed.

## Model

| member | source | states |
|---|---|---|
| MeshCompiler.RightExactlyWhenCompilable | AppleMESH-1.0d1/mesh.cpp:1133-1461 | whatever non-empty segments the cursor returns, the compiled program passes an independent check (next bytes in order, each at its own place, MESH count equal to the bytes of its group, batch sizes running sums, LAST exactly on the byte that ends the transfer) if and only if the misaligned head of a read lies within the first segment and the length left does not read as a negative SInt32 |
| MeshCompiler.ProgramIsRight | AppleMESH-1.0d1/mesh.cpp:1169-1461 | a compilable batch yields a checked program that moves exactly the bytes the loop counted, at least one if any is left, and stops short of the transfer by exactly what remains |
| MeshCompiler.OverlongHeadIsCorrupt | AppleMESH-1.0d1/mesh.cpp:1210-1232 | a head reaching past the first segment makes the unsigned remainder spill out of the count field: descriptor 5 is damaged, for every such transfer |
| MeshCompiler.GroupProgramRight | AppleMESH-1.0d1/mesh.cpp:1176-1305 | one pass of the outer loop carries the checker from the end of one group to the end of the next |
| MeshCompiler.FinishRight | AppleMESH-1.0d1/mesh.cpp:1328-1461 | each of the three postambles ends the program where the items ended and passes the check: the synchronous one masks, tests and synchronises in this order, and waits at the test exactly for a write of at most 16 bytes |
| MeshCompiler.ProgramEndsExactly | AppleMESH-1.0d1/mesh.cpp:1328-1461 | the last descriptor branches to kcclMESHintr if and only if bytes remain, to kcclOverrun if and only if none remain and a synchronous transfer moved something, and else to kcclGetStatus |
| MeshCompiler.HeadEndsAligned | AppleMESH-1.0d1/mesh.cpp:1210-1231 | the part of a read that goes through kcclReadBuf8 ends at the first 8-byte boundary, and a write has none |
| MeshMachine.StepKeepsInv | AppleMESH-1.0d1/mesh.cpp:1133-1461 | every bus byte, DMA byte and descriptor step, in any interleaving, keeps registers, FIFO, bus and memory in agreement with the program position; only a DMA byte counts as passed |
| MeshMachine.ItemPlace | AppleMESH-1.0d1/mesh.cpp:1233-1246 | in the middle of an item the byte about to move belongs at that very place |
| MeshMachine.NextKeepsRegisters | AppleMESH-1.0d1/mesh.cpp:1256-1303 | the preamble stores and waits leave batch size and residual count exactly at the next group |
| MeshTransfer.AccountingIsExact | AppleMESH-1.0d1/mesh.cpp:2876-2892 | in every reachable state stopped at a branch point, batch size minus MESH residual minus FIFO count is the number of bytes that left the FIFO |
| MeshTransfer.AccountingEverywhere | AppleMESH-1.0d1/mesh.cpp:1260-1285 | in every reachable state, branch point or not, the same sum is off only before the two counter stores of the preamble: by what the counter lacks of the length of the group, and then by the difference of their low bytes |
| MeshTransfer.AccountingHoldsExactly | AppleMESH-1.0d1/mesh.cpp:1260-1285 | so the sum is right if and only if, at such a slot, the counter agrees with the length of the group in what is still to be stored |
| MeshTransfer.AccountingIsOffInLaterGroups | AppleMESH-1.0d1/mesh.cpp:1260-1285 | in every group but the first it is off by the whole group at the first of these slots and by its length modulo 256 at the second |
| MeshTransfer.SomethingCanMove | AppleMESH-1.0d1/mesh.cpp:1169-1461 | no interleaving of chip and channel deadlocks before the program ends |
| MeshTransfer.StepUsesOne | AppleMESH-1.0d1/mesh.cpp:1169-1461 | every step uses one unit of a bounded budget, so no interleaving goes on for ever |
| MeshTransfer.EveryRunCanComplete | AppleMESH-1.0d1/mesh.cpp:1169-1461 | from every state a run can be in the program can be completed |
| MeshTransfer.SmallWriteWaits | AppleMESH-1.0d1/mesh.cpp:1374-1387 | in every run, a write of at most 16 bytes does not pass the test for an exception before the target has every byte |
| MeshTransfer.OnlySmallWritesWait | AppleMESH-1.0d1/mesh.cpp:1363-1388 | nothing else ever waits at that test |
| MeshTransfer.WriteBytesWrites | xnu-123.5/iokit/Kernel/IOMemoryDescriptor.cpp:560-610 | writeBytes puts the given bytes at their offsets and changes no other byte of the transfer |
| MeshTransfer.StopDelivers | AppleMESH-1.0d1/mesh.cpp:2876-2936 | after updateCurrentIndex on a read stopped anywhere in a freshly compiled program, DMA data, side buffer and drained FIFO together have every byte of the run that crossed the bus at its logical offset, and bytesTransferred is their count |
| MeshTransfer.StopCounts | AppleMESH-1.0d1/mesh.cpp:2876-2936 | on a write bytesTransferred advances by exactly the bytes the target took, and memory is untouched |
| MeshTransfer.GoodDelivers | AppleMESH-1.0d1/mesh.cpp:1767-1788 | a program that ends has moved its whole batch, and the Good interrupt counts and copies it right |
| MeshRerun.RunTouches | AppleMESH-1.0d1/mesh.cpp:1210-1247 | a read program writes to no place but those of the bytes that have passed, less the head |
| MeshRerun.StopDeliversExactly | AppleMESH-1.0d1/mesh.cpp:2876-2936 | whatever alignment count is left of the batch, everything up to bytesTransferred is in memory after a stop if and only if everything before the batch was, and either the count is that of the batch or the part of the head that went to the side buffer was in memory already |
| MeshRerun.StopFrame | AppleMESH-1.0d1/mesh.cpp:2895-2899 | what such a stop does to every other byte of the transfer: those of a head that has not come yet are overwritten with what kcclReadBuf8 holds, and all others are as they were before the run |
| MeshSession.StepExactly | AppleMESH-1.0d1/mesh.cpp:1833-1891 | through complete batches, stops, programs run again as they stand, Save Data Pointer, Restore Pointers and reconnections: both sides keep the same saved pointer; everything below bytesTransferred is in place afterwards if and only if it was before and the run kept its head; initiator and target still agree if and only if it was not a reconnection without a preceding save (SCSI-2, section 6.4) |
| MeshSession.EveryByteArrives | AppleMESH-1.0d1/mesh.cpp:1767-1891 | in every orderly session, once bytesTransferred equals xferCount a write has given the target every byte once, in order, and a read in which every run kept its head has every byte in memory |
| MeshSession.InPlaceExactly | AppleMESH-1.0d1/mesh.cpp:1767-1891 | with Restore Pointers too: it is in place after every event of the session if and only if every run kept its head |
| MeshSession.CompleteExactly | AppleMESH-1.0d1/mesh.cpp:1767-1891 | and for a read that is exact: in an orderly session without Restore Pointers everything below bytesTransferred is in place at the end if and only if it was at the start and every run kept its head: fReadAlignmentCount was still that of the batch, or memory had the head before the run |
| MeshSession.RerunDeliversExactly | AppleMESH-1.0d1/mesh.cpp:1869-1878 | a read stopped before its first byte and started again without updateCP delivers everything if and only if its batch has no misaligned head, or the stop came before the batch size was stored, or kcclReadBuf8 happened to hold the head at the stop |
| MeshSession.RerunLosesHead | AppleMESH-1.0d1/mesh.cpp:1869-1878 | for every compilable misaligned read, whatever memory holds: a stop after the preamble and before the first byte, and then the same program run to its end, leaves bytes missing that bytesTransferred counts |
| MeshSession.GoodAdvances | AppleMESH-1.0d1/mesh.cpp:1774-1805 | each Good interrupt advances bytesTransferred by the compiled batch, which is not empty |
| MeshSession.EndsWhereItShould | AppleMESH-1.0d1/mesh.cpp:1328-1461 | a program that has run to its end has stopped the chip with an empty FIFO, and has gone to the interrupt while bytes remain, to the bit bucket after the last synchronous byte, else to the status |
| MeshSession.RestartIsTotal | AppleMESH-1.0d1/mesh.cpp:1767-1808 | compile, complete, rebuild: repeating it terminates with bytesTransferred equal to xferCount |
| MeshCapacity.FitsExactlyWhenAffordable | AppleMESH-1.0d1/mesh.cpp:1140-1141 | with the page-sized area no transfer overruns it if and only if the cursor returns at most 9 segments per call (11 without the synchronous postamble); updateCP allows 15 |
| MeshCapacity.AffordableFits | AppleMESH-1.0d1/mesh.cpp:1169-1171 | for any area: the 16-slot slack holds the last group and the postamble when groups are that small |
| MeshController.Controller.EmitSegment | AppleMESH-1.0d1/mesh.cpp:1196-1247 | one turn of the inner loop, with its wrapping arithmetic, writes the descriptors the specification gives for that segment |
| MeshController.Controller.EmitItems | AppleMESH-1.0d1/mesh.cpp:1193-1248 | the inner loop writes exactly the items of the group behind the reserved preamble |
| MeshController.Controller.BuildGroup | AppleMESH-1.0d1/mesh.cpp:1176-1305 | items, then the preamble patched in front of them, then the wait and clear, read as one group program |
| MeshController.Controller.FillPostamble | AppleMESH-1.0d1/mesh.cpp:1328-1461 | the postamble, including the overwritten ClearCmdDone and the incomplete flag |
| MeshController.Controller.UpdateCP | AppleMESH-1.0d1/mesh.cpp:1111-1463 | the descriptor array holds exactly the specified program, which may reach up to six descriptors past the area; the incomplete flag tells whether bytes remain; the alignment count is that of the batch |
| MeshController.Controller.UpdateCurrentIndex | AppleMESH-1.0d1/mesh.cpp:2876-2936 | memory, bytesTransferred and batch size afterwards are those that StopDeliversExactly and StopCounts are about, and the alignment count is cleared unless no batch size was stored; the FIFO is flushed exactly on a write with bytes in it |
| MeshController.Controller.DrainFifo | AppleMESH-1.0d1/mesh.cpp:2919-2930 | the FIFO bytes, as far as the transfer goes, are written at bytesTransferred, which advances by them |
| MeshController.Controller.DoInterruptStageGood | AppleMESH-1.0d1/mesh.cpp:1767-1806 | the state GoodDelivers is about, and a restart exactly when the batch was incomplete |
| MeshController.Controller.DoInterruptStageXfer | AppleMESH-1.0d1/mesh.cpp:1833-1891 | the stop is accounted for, the messages move the two positions, and in a data phase the program is started again exactly when bytesTransferred is back where it was at the interrupt |
| MeshJoin.Prepares | AppleMESH-1.0d1/mesh.cpp:1111-1463 | updateCP leaves in the area exactly the program that the session runs next, with its alignment count, and the incomplete flag says whether the batch ends the transfer |
| MeshJoin.RunsToEnd | AppleMESH-1.0d1/mesh.cpp:1767-1806 | whatever chip and channel did on a run to the end, first or repeated, doInterruptStageGood takes the fields where the Good step of the session goes, and compiles the next batch exactly when bytes remain |
| MeshJoin.RunsToStop | AppleMESH-1.0d1/mesh.cpp:1833-1891 | the same for doInterruptStageXfer after a stop at any branch point: the Stop step, those of the messages that follow, and the same program prepared to run again, with the alignment count the stop left, exactly in a data phase with bytesTransferred where the program starts |
| MeshJoin.TalkIsSteps | AppleMESH-1.0d1/mesh.cpp:2268-2276 | each message the target sends in between is the Save or the Restore step of the session, or none |
| MessageIn.FramedExactlyWhenSurviving | AppleMESH-1.0d1/mesh.cpp:2113-2208 | any list of messages run together into bytes comes out as that list, up to the first message that stops the routine, if and only if each of those is not extended, has a count of 1 to 14, has count 15 and a 17th byte below 2 or above 128, or has count 16 to 18 and a 17th byte equal to the count less 14 |
| MessageIn.OutcomeExactly | AppleMESH-1.0d1/mesh.cpp:2184-2222 | for messages that are framed right: they are handled up to the first disconnect, completion or rejection, or one only when reselecting; the command is aborted if and only if one was rejected; and the routine fails if and only if the last one disconnected or completed, or a byte timed out |
| MessageIn.PhaseCuts | AppleMESH-1.0d1/mesh.cpp:2142-2181 | over every stream of bytes, where the first message is cut: the counter is a signed byte behind the 16-byte buffer, so counts of 0 and above 128 end after three bytes and a 17th byte replaces the counter; a 21st byte goes over fields beyond it |
| MessageIn.CutIsLength | AppleMESH-1.0d1/mesh.cpp:2142-2181 | a message is cut at its own end if and only if it meets that condition; those that fit the buffer are the counts 1 to 14 |
| MessageIn.FramingIsUnique | AppleMESH-1.0d1/mesh.cpp:2173-2181 | a stream is at most one list of SCSI messages, whoever cuts it |
| MessageIn.MessageReader.DoMessageInPhase | AppleMESH-1.0d1/mesh.cpp:2099-2222 | the loop over received bytes, storing into the 16-byte buffer and past it, yields the messages, the abort and the success the byte machine specifies |
| MessageOut.SetupIsRightExactly | AppleMESH-1.0d1/mesh.cpp:1486-1505 | what is queued goes out whole and in order, ATN dropped exactly with its last byte, if and only if anything is queued; with nothing queued 256 bytes go out |
| MessageOut.MessagesAreFramed | AppleMESH-1.0d1/mesh.cpp:454-493 | any peer that cuts what a command starts with into SCSI messages gets exactly the Identify, tag, abort and negotiation messages queued: there is no other cut |
| MessageOut.MessageQueue.QueueMessages | AppleMESH-1.0d1/mesh.cpp:454-493 | the buffer holds exactly these messages, one behind the other |
| MessageOut.MessageQueue.SetupMsgO | AppleMESH-1.0d1/mesh.cpp:1486-1505 | counts, branch and last byte are left as the fixed program needs them |
| NvramStore.CrashAtomicity | AppleCore99NVRAM-1.0d1/Core99NVRAM.cpp:50-108 | after a crash between any two steps of any number of syncs, failed ones included, start() loads the current contents or one of the images sync had sealed since, whole |
| NvramStore.GoodSyncSurvives | AppleCore99NVRAM-1.0d1/Core99NVRAM.cpp:50-108 | on flash with a valid bank: start, change anything but the signature, sync with a device that works, lose power: the next start loads exactly that change, sealed with one more than the higher generation found |
| NvramStore.OneSyncIsAtomic | AppleCore99NVRAM-1.0d1/Core99NVRAM.cpp:84-108 | a single sync crashed anywhere leaves the old contents or the sealed shadow |
| NvramStore.CompletedSyncIsRecovered | AppleCore99NVRAM-1.0d1/Core99NVRAM.cpp:50-82 | once a sync has completed, every later start() loads it, however many crashes and edits follow |
| NvramStore.FinishedSyncIsCurrent | AppleCore99NVRAM-1.0d1/Core99NVRAM.cpp:101-107 | a read-back that matches makes the sealed shadow the current bank, and start() would load it |
| NvramStore.StepKeepsInv | AppleCore99NVRAM-1.0d1/Core99NVRAM.cpp:84-211 | edit, seal, erase, each byte write, swap and crash all keep the current bank valid and older than every attempt |
| NvramStore.BootEstablishesInv | AppleCore99NVRAM-1.0d1/Core99NVRAM.cpp:63-78 | a start() that finds a valid bank establishes that invariant |
| NvramStore.WrappedGenerationIsLost | AppleCore99NVRAM-1.0d1/Core99NVRAM.cpp:94-94 | an image sealed after the generation wrapped is never chosen |
| NvramStore.GenerationIsBounded | AppleCore99NVRAM-1.0d1/Core99NVRAM.cpp:84-108 | over any run with failures and crashes, the generation grows by at most one for each sync begun |
| NvramStore.FirstSyncsDoNotWrap | AppleCore99NVRAM-1.0d1/Core99NVRAM.cpp:63-94 | from a start() on, the no-wrap assumption holds by itself for as many syncs as the higher generation found is short of its limit, and the generation never exceeds it by more than the syncs begun |
| NvramStore.FaithfulDeviceMeetsAssumption | AppleCore99NVRAM-1.0d1/Core99NVRAM.cpp:174-200 | a device that programs each cell or leaves it erased, whatever it reports, meets the no-collision assumption at every byte write, for every image whose copies with holes are detected; and while writes succeed the bank stays such a copy |
| NvramStore.EraseStartsFaithful | AppleCore99NVRAM-1.0d1/Core99NVRAM.cpp:138-172 | an erase that succeeds is where such a sync starts: a copy that is all holes |
| NvramStore.FaithfulSyncMeetsAssumption | AppleCore99NVRAM-1.0d1/Core99NVRAM.cpp:174-200 | so all byte writes of a sync meet it, however many cells stay erased on the way |
| NvramImage.SealedImageValidates | AppleCore99NVRAM-1.0d1/Core99NVRAM.cpp:92-99 | a sealed image validates to its generation, and to 0 exactly when the signature byte was changed |
| NvramImage.NewImageOutranksExactly | AppleCore99NVRAM-1.0d1/Core99NVRAM.cpp:92-99 | the sealed image outranks the generation before it if and only if the signature is intact and the counter does not wrap |
| NvramImage.EarlyTearIsDetected | AppleCore99NVRAM-1.0d1/Core99NVRAM.cpp:229-245 | a write torn within the first 18 bytes never validates |
| NvramImage.LateTearIsDetected | AppleCore99NVRAM-1.0d1/Core99NVRAM.cpp:229-290 | a write torn within the last 256 bytes, of an image that does not end in the missing 0xFFs, never validates |
| NvramImage.HoleIsDetected | AppleCore99NVRAM-1.0d1/Core99NVRAM.cpp:229-290 | a copy with holes anywhere never validates, unless one is in the low half of the Adler field or those of the body add a multiple of 65521 to its sum |
| NvramImage.TearIsAcceptedExactly | AppleCore99NVRAM-1.0d1/Core99NVRAM.cpp:229-245 | a torn copy with a whole header validates exactly when what it has of the Adler field is the Adler-32 of its body, which from byte 20 on means a collision with the whole image |
| NvramImage.SealTouchesOnlyHeader | AppleCore99NVRAM-1.0d1/Core99NVRAM.cpp:92-99 | sealing leaves every byte but checksum, Adler-32 and generation as it was |
| NvramImage.GenerationInPlace | AppleCore99NVRAM-1.0d1/Core99NVRAM.cpp:229-245 | the generation of a valid image is its bytes 20 to 23, high byte first, and its byte 0 is 0x5A |
| NvramImage.HeaderByteExactly | AppleCore99NVRAM-1.0d1/Core99NVRAM.cpp:247-264 | a wrong byte among bytes 2 to 15 of a valid image goes unnoticed if and only if it is 0 for 255 or 255 for 0 |
| NvramImage.OtherByteIsDetected | AppleCore99NVRAM-1.0d1/Core99NVRAM.cpp:229-290 | any other single wrong byte of a valid image is noticed: signature, checksums, generation or body |
| Checksums.PerByteIsAdler | AppleCore99NVRAM-1.0d1/Core99NVRAM.cpp:266-290 | reducing after every byte and reducing at the end give the same Adler-32 (RFC 1950, sections 2.2 and 8.2) |
| Checksums.AdlerIsWeighed | AppleCore99NVRAM-1.0d1/Core99NVRAM.cpp:266-290 | in closed form: modulo 65521, the low half is one more than the sum of the bytes, and the high half weighs every byte by its distance from the end |
| Checksums.DeferralFitsExactly | AppleCore99NVRAM-1.0d1/Core99NVRAM.cpp:274-282 | from any residues, any bytes can be added without reduction within 32 bits if and only if there are at most 5552; 5000 reach at most 3,515,803,020, and bytes that reach it are given |
| Checksums.Adler32 | AppleCore99NVRAM-1.0d1/Core99NVRAM.cpp:266-290 | the 32-bit loop never overflows and returns the per-byte Adler-32 of every buffer |
| Checksums.EndAroundCarry | AppleCore99NVRAM-1.0d1/Core99NVRAM.cpp:247-264 | the carry folded into each byte is arithmetic modulo 255 |
| Checksums.ChrpCheckSum | AppleCore99NVRAM-1.0d1/Core99NVRAM.cpp:247-264 | the loop computes the one's-complement sum of the header without its own checksum byte |
| NvramStore.Core99NVRAM.constructor | AppleCore99NVRAM-1.0d1/Core99NVRAM.cpp:50-82 | start() leaves the state Boot describes |
| NvramStore.Core99NVRAM.Select | AppleCore99NVRAM-1.0d1/Core99NVRAM.cpp:63-78 | bank A is chosen only when its generation is strictly higher, the shadow is a copy of the chosen bank, and the generation goes on from the higher one |
| NvramStore.Core99NVRAM.Sync | AppleCore99NVRAM-1.0d1/Core99NVRAM.cpp:84-108 | the flash arrays, shadow, generation and bank pointers end where the step machine ends |
| NvramStore.Core99NVRAM.EraseBlock | AppleCore99NVRAM-1.0d1/Core99NVRAM.cpp:138-172 | success means the other bank reads all 0xFF, and only that bank changed |
| NvramStore.Core99NVRAM.WriteBlock | AppleCore99NVRAM-1.0d1/Core99NVRAM.cpp:174-211 | success means the other bank equals the shadow, and only that bank changed |
| NvramStore.Core99NVRAM.SealShadow | AppleCore99NVRAM-1.0d1/Core99NVRAM.cpp:92-99 | the shadow in place becomes its seal under the next generation |
| NvramStore.Core99NVRAM.Read | AppleCore99NVRAM-1.0d1/Core99NVRAM.cpp:110-122 | not ready without a shadow, bad argument where the 32-bit check refuses, and otherwise the bytes of the shadow and nothing else in the buffer, or a copy from outside it |
| NvramStore.Core99NVRAM.Write | AppleCore99NVRAM-1.0d1/Core99NVRAM.cpp:124-136 | quiet success without a shadow, bad argument where the 32-bit check refuses, and otherwise exactly the addressed shadow bytes replaced, or a copy outside it |
| NvramStore.CheckIsRightExactly | AppleCore99NVRAM-1.0d1/Core99NVRAM.cpp:115-117 | the range check never refuses a range inside the shadow, and lets one outside through if and only if offset + length wraps 32 bits to no more than the size |
| AudioRing.RingRefinesTape | IOAudioFamily-14.8/IOAudioDMAEngine.cpp:847-912 | for any interleaving of mixes, play-head steps and erases, every position already played sounded as the clipped sum of all contributions ever made to it |
| AudioRing.StepKeepsInv | IOAudioFamily-14.8/IOAudioDMAEngine.cpp:847-912 | one lap of ring always equals the tape between the erase head and one lap past it |
| AudioRing.MixAllAt | IOAudioFamily-14.8/IOAudioDMAEngineMixer.cpp:41-63 | mixing at most one lap adds each source sample to its own position and touches no other |
| AudioRing.ErasedAt | IOAudioFamily-14.8/IOAudioDMAEngine.cpp:876-905 | in both branches erasing clears exactly the played positions |
| AudioRing.LapBehindErasesNothing | IOAudioFamily-14.8/IOAudioDMAEngine.cpp:876-905 | an erase head a whole lap behind erases nothing, which is why the head must move less than a lap per erase |
| AudioEngine.StoppedMeansSilent | IOAudioFamily-14.8/IOAudioDMAEngine.cpp:335-352 | in every run of clients coming and going, both buffers are all zero whenever the engine is stopped, although a restart clears nothing |
| AudioEngine.StopTakesALap | IOAudioFamily-14.8/IOAudioDMAEngine.cpp:914-937 | the stop test passes only when the head is more than one buffer beyond where the last client left, wherever it moved between frame and loop reads on either side |
| AudioEngine.StopIsSafeExactly | IOAudioFamily-14.8/IOAudioDMAEngine.cpp:523-528 | for every buffer length and position, the stop test can never pass within one buffer of where the last client left if and only if the loop count noted does not lag behind the frame noted |
| AudioEngine.LaggingLoopCountStopsEarly | IOAudioFamily-14.8/IOAudioDMAEngine.cpp:523-528 | how early it can be otherwise: one position later |
| AudioEngine.StopsInTheEnd | IOAudioFamily-14.8/IOAudioDMAEngine.cpp:914-937 | from there on the stop test passes wherever the head is |
| AudioEngine.UnusedEngineStops | IOAudioFamily-14.8/IOAudioDMAEngine.cpp:914-937 | an engine that nobody uses is stopped by the first check two whole buffers after the loop count was noted |
| AudioEngine.StepKeepsInv | IOAudioFamily-14.8/IOAudioDMAEngine.cpp:483-570 | clients, flushes and sound steps keep contributions within a buffer of the last departure |
| AudioEngine.EraseSilences | IOAudioFamily-14.8/IOAudioDMAEngine.cpp:735-740 | the erase on stopping leaves nothing once the head is past every contribution |
| AudioDriver.FlatIsMixAll | IOAudioFamily-14.8/IOAudioDMAEngineMixer.cpp:46-63 | adding a whole stretch and then clipping it is adding and clipping sample by sample |
| AudioDriver.SplitIsMixAll | IOAudioFamily-14.8/IOAudioDMAEngineMixer.cpp:41-45 | splitting at the end of the buffer is going round |
| AudioDriver.FramesAreSamples | IOAudioFamily-14.8/IOAudioDMAEngine.cpp:872-874 | a position in frames and in samples names the same place of the ring and the same loop |
| AudioDriver.DmaEngine.MixAndClip | IOAudioFamily-14.8/IOAudioDMAEngineMixer.cpp:28-66 | for any two UInt32 arguments that stay inside the buffers, the recursion and its loop leave them as one-by-one mixing round the ring would |
| AudioDriver.StaysInsideExactly | IOAudioFamily-14.8/IOAudioDMAEngineMixer.cpp:41-61 | such a call stores inside the buffers, in every level of the recursion, if and only if it starts inside and the sum of its arguments does not wrap |
| AudioDriver.FirstHalfIsFlat | IOAudioFamily-14.8/IOAudioDMAEngineMixer.cpp:41-42 | the first half of a call that splits does not split again, even where its subtraction wraps |
| AudioDriver.DmaEngine.PerformErase | IOAudioFamily-14.8/IOAudioDMAEngine.cpp:847-912 | both buffers erased from erase head to play head, and the erase head moved |
| AudioDriver.DmaEngine.PerformFlush | IOAudioFamily-14.8/IOAudioDMAEngine.cpp:914-937 | stops exactly when the test passes with no clients, and then erases and moves the erase head |
| AudioDriver.DmaEngine.AddUserClient | IOAudioFamily-14.8/IOAudioDMAEngine.cpp:483-508 | restarts exactly the first client of a stopped engine, and forgets the client if the start fails |
| AudioDriver.DmaEngine.RemoveUserClient | IOAudioFamily-14.8/IOAudioDMAEngine.cpp:510-537 | notes the stop position exactly when the last client of a running engine leaves |
| AudioJoin.MayStopOnFrames | IOAudioFamily-14.8/IOAudioDMAEngine.cpp:928-931 | the stop test on frames is the stop test on samples |
| AudioJoin.MixAtPlace | IOAudioFamily-14.8/IOAudioDMAEngineMixer.cpp:28-66 | mixing at a place of the ring is mixing at any absolute position there, however many laps on |
| AudioJoin.StartsIdle | IOAudioFamily-14.8/IOAudioDMAEngine.cpp:335-365 | an engine with cleared buffers and no clients is the machine at rest |
| AudioJoin.FrameAt | IOAudioFamily-14.8/IOAudioDMAEngine.cpp:872-874 | frame and loop count of any absolute position name its place in the arrays and its lap |
| AudioJoin.Plays | IOAudioFamily-14.8/IOAudioDMAEngine.cpp:872-874 | the play head moves without any field changing |
| AudioJoin.Mixes | IOAudioFamily-14.8/IOAudioDMAEngineMixer.cpp:28-66 | mixAndClip on the arrays is the mix step of the engine, whichever lap the frame belongs to, unless its two arguments wrap |
| AudioJoin.Erases | IOAudioFamily-14.8/IOAudioDMAEngine.cpp:847-912 | performErase is the erase step |
| AudioJoin.Adds | IOAudioFamily-14.8/IOAudioDMAEngine.cpp:483-508 | addUserClient is the step of a client arriving, with its restart or its failure |
| AudioJoin.Removes | IOAudioFamily-14.8/IOAudioDMAEngine.cpp:510-537 | removeUserClient is the step of a client leaving, wherever the head moves between its two reads |
| AudioJoin.Flushes | IOAudioFamily-14.8/IOAudioDMAEngine.cpp:914-937 | performFlush is the flush step, with its stop and last erase |
| AudioJoin.StoppedBuffersAreSilent | IOAudioFamily-14.8/IOAudioDMAEngine.cpp:335-352 | so the arrays themselves are all zero whenever the engine is stopped |
| AudioClients.WithoutKeepsTheOthers | IOAudioFamily-14.8/IOAudioDMAEngineUserClient.cpp:527-566 | unregistering leaves exactly the entries for other addresses |
| AudioClients.WithoutKeepsOrder | IOAudioFamily-14.8/IOAudioDMAEngineUserClient.cpp:527-566 | entry by entry, so the others keep their order and number |
| AudioClients.RegisterUnregister | IOAudioFamily-14.8/IOAudioDMAEngineUserClient.cpp:399-566 | unregistering undoes a registration if and only if the address was not registered before |
| AudioClients.SucceedsExactlyWhenAllDo | IOAudioFamily-14.8/IOAudioDMAEngineUserClient.cpp:584-614 | the accumulated result is success if and only if every transfer succeeded |
| AudioClients.ReportsTheLastFailure | IOAudioFamily-14.8/IOAudioDMAEngineUserClient.cpp:584-614 | a failure reported is that of the last transfer that failed |
| AudioClients.UserClient.RegisterClientBuffer | IOAudioFamily-14.8/IOAudioDMAEngineUserClient.cpp:399-508 | which error each bad argument gives; appends the new entry at the end of the linked list, duplicates included, and changes the list on no failure; the frame count all buffers share is set even when mapping fails |
| AudioClients.UserClient.UnregisterClientBuffer | IOAudioFamily-14.8/IOAudioDMAEngineUserClient.cpp:510-566 | splices out every entry for the address in one pass over the links |
| AudioClients.UserClient.PerformClientIO | IOAudioFamily-14.8/IOAudioDMAEngineUserClient.cpp:568-628 | visits every entry in order, each with the one shared frame count, whatever becomes of each, and reports the last failure |
| AudioClients.SharedCountExactly | IOAudioFamily-14.8/IOAudioDMAEngineUserClient.cpp:399-628 | after a registration every transfer stays inside its buffer if and only if each buffer registered before holds at least as many frames as the new one |
| RwLock.ReaderWriterSafety | AppleTalk-59/at_rwlock.c:129-250 | in every reachable state a writer excludes every other holder, and the four counters equal the numbers of holders and waiters |
| RwLock.NoWakeupIsLost | AppleTalk-59/at_rwlock.c:129-250 | with any number of requests and spurious wakeups: on a free lock with a waiter some waiter has been woken, and no reader is parked while no writer is active |
| RwLock.GrantedExactly | AppleTalk-59/at_rwlock.c:135-229 | in every run an attempt to read, trying or not, is granted if and only if nobody holds the lock for writing, and one to write if and only if nobody holds it; else it is parked, or turned away if it only tries |
| RwLock.UnlockWakesExactly | AppleTalk-59/at_rwlock.c:180-249 | in every run, request by request: a reader that unlocks wakes nobody while another reads; the last one wakes the chosen parked writer; a writer wakes every parked reader if any reader waits, and else the chosen writer; nobody else moves |
| RwLock.DestroyExactlyWhenUnused | AppleTalk-59/at_rwlock.c:92-124 | the locked part of destroy succeeds if and only if nobody holds or awaits the lock |
| RwLock.DestroyIsFinalExactly | AppleTalk-59/at_rwlock.c:92-124 | after it has succeeded, no run ever has a holder again if and only if no request stood between its unlocked test of valid and the mutex |
| RwLock.LateHolderStays | AppleTalk-59/at_rwlock.c:174-178 | a lock granted to such a request is never given back: every later test of valid fails |
| RwLock.EveryWaiterCanBeServed | AppleTalk-59/at_rwlock.c:129-250 | no reachable state of a lock not destroyed is stuck: with no new requests but unlocks, every request under way is served and the lock comes to rest |
| RwLock.Progress | AppleTalk-59/at_rwlock.c:129-250 | while anything is pending some request on its way in or out, or some woken waiter, brings the lock strictly closer to rest |
| RwLock.StepKeepsInv | AppleTalk-59/at_rwlock.c:76-250 | every test of valid and every stretch of code under the mutex keeps counters, exclusion and wakeups |
| RwLock.AtRwlock.Test | AppleTalk-59/at_rwlock.c:95-98 | the test of valid that every function makes before it takes the mutex: EINVAL, or on the way |
| RwLock.AtRwlock.ReadLock | AppleTalk-59/at_rwlock.c:135-146 | the first stretch of readlock under the mutex: granted or parked |
| RwLock.AtRwlock.ReadRecheck | AppleTalk-59/at_rwlock.c:137-145 | the loop test after condition_wait |
| RwLock.AtRwlock.ReadTryLock | AppleTalk-59/at_rwlock.c:160-168 | EBUSY or granted, with the whole new state |
| RwLock.AtRwlock.ReadUnlock | AppleTalk-59/at_rwlock.c:180-185 | one reader less, and a writer signalled when it was the last |
| RwLock.AtRwlock.WriteLock | AppleTalk-59/at_rwlock.c:197-207 | the first stretch of writelock under the mutex |
| RwLock.AtRwlock.WriteRecheck | AppleTalk-59/at_rwlock.c:199-207 | the loop test after condition_wait |
| RwLock.AtRwlock.WriteTryLock | AppleTalk-59/at_rwlock.c:221-229 | EBUSY or granted, with the whole new state |
| RwLock.AtRwlock.WriteUnlock | AppleTalk-59/at_rwlock.c:241-249 | readers broadcast, or else a writer signalled |
| RwLock.AtRwlock.Destroy | AppleTalk-59/at_rwlock.c:98-123 | refuses while any counter is non-zero |
| Ps2.ExpectingReadRepairs | ApplePS2Controller-2/ApplePS2Controller.cpp:745-876 | over every arrival stream: at most two own bytes taken, the expected one returned if and only if it is one of the first two in time, and the handler gets the taken bytes less the returned one |
| Ps2.InTimeExactly | ApplePS2Controller-2/ApplePS2Controller.cpp:662-682 | in time is what comes before the last empty look the counter allows, however many bytes come in between |
| Ps2.ExpectingReadExactly | ApplePS2Controller-2/ApplePS2Controller.cpp:745-876 | case by case, within 10000 empty looks: which of its own first two bytes the read returns, which it hands to its driver, and the 0 a timeout fakes |
| Ps2.OthersPassThrough | ApplePS2Controller-2/ApplePS2Controller.cpp:862-872 | whatever arrives of the other device is dispatched at once and in order, and a mouse read leaves the keyboard queue alone |
| Ps2.OrderKeptExactly | ApplePS2Controller-2/ApplePS2Controller.cpp:717-876 | the other device hears its bytes in order over every stream if and only if the read is for the keyboard or the keyboard queue is empty |
| Ps2Controller.PlainReadRight | ApplePS2Controller-2/ApplePS2Controller.cpp:628-711 | the plain read takes the device's first byte in time, or none |
| Ps2Controller.RequestConserves | ApplePS2Controller-2/ApplePS2Controller.cpp:550-624 | over any request, failing anywhere, every byte of either device is dispatched, got by the caller, discarded by the failing comparison, or still to come, and none is made up |
| Ps2Controller.RequestKeepsOrder | ApplePS2Controller-2/ApplePS2Controller.cpp:550-624 | over any request whose reads are for the keyboard or find the keyboard queue empty, failing anywhere: what is gone of either device's stream is what its handler got and what was read, each in the order of the stream |
| Ps2Controller.EmptyQueueKeepsOrder | ApplePS2Controller-2/ApplePS2Controller.cpp:550-624 | a request that starts with an empty keyboard queue finds it empty at every read |
| Ps2Controller.ByteLostExactly | ApplePS2Controller-2/ApplePS2Controller.cpp:580-590 | a byte is discarded if and only if the request failed at a comparison for which the device sent one in time, and it is the one byte that comparison read |
| Ps2Controller.FailsOnlyAtComparison | ApplePS2Controller-2/ApplePS2Controller.cpp:573-613 | a request stops at the first comparison whose read comes to another byte and only there: everything before it succeeded and is overwritten as its own read left it, and only plain reads overwrite |
| Ps2Controller.DeviceExactly | ApplePS2Controller-2/ApplePS2Controller.cpp:568-611 | told by the command list alone: a command reads the mouse if and only if the last data byte written before it was announced by 0xD4 since the one before |
| Ps2Controller.RequestReadsRight | ApplePS2Controller-2/ApplePS2Controller.cpp:550-624 | command by command, with that device: a plain read leaves its first byte in time or 0, and a comparison holds if and only if one of its first two bytes in time is the expected one, or nothing came and 0 is expected |
| Ps2Controller.Controller.ReadDataPort | ApplePS2Controller-2/ApplePS2Controller.cpp:628-711 | the polling loop is the specified plain read |
| Ps2Controller.Controller.ReadDataPortExpecting | ApplePS2Controller-2/ApplePS2Controller.cpp:717-876 | the polling loop with its held byte is the specified expecting read |
| Ps2Controller.Controller.ProcessRequest | ApplePS2Controller-2/ApplePS2Controller.cpp:550-624 | commands and count overwritten in place, and every byte dispatched, got and discarded, as specified |
| Ps2Controller.Controller.EnqueueKeyboardData | ApplePS2Controller-2/ApplePS2Controller.cpp:1034-1053 | appends unless all 32 elements are in use |
| Ps2Controller.Controller.DequeueKeyboardData | ApplePS2Controller-2/ApplePS2Controller.cpp:1055-1077 | removes the oldest byte, if there is one |
| AspFraming.FramingIsExact | AppleTalk-59/asp_if.c:678-733 | over any sequence of calls that fetch each write's data first, with tickles and any number of buffers too small, every payload byte is handed over or drained exactly once, in order, and the stream stands at the packet boundary the calls imply |
| AspFraming.GetRequestTakesNext | AppleTalk-59/asp_if.c:678-733 | SPGetRequest takes the next packet that is not a tickle, or resumes the one whose buffer was too small |
| AspFraming.NextPacketInFull | AppleTalk-59/asp_if.c:678-733 | in the source's numbers: every tickle (command 5) is sent back once; of the next packet the caller gets the payload, of a write (command 6) as far as ErrorCode says unless that is 0; a reply is told by flag 1; the stream stands right behind |
| AspFraming.WriteDataInFull | AppleTalk-59/asp_if.c:1185-1203 | SPWrtContinue after it gets the rest of that write, as much as there is room for, drains what there is not, and leaves the next packet |
| AspFraming.WrtContinueTakesData | AppleTalk-59/asp_if.c:1176-1207 | SPWrtContinue hands over or drains exactly the data of the write |
| AspFraming.AsksWithinBufferExactly | AppleTalk-59/asp_if.c:696-714 | over every stream and session: SPGetRequest asks recv for at most what its buffer holds if and only if the header it takes has no negative length, and overruns exactly otherwise |
| AspFraming.AsksForRestExactly | AppleTalk-59/asp_if.c:1185-1191 | over every session: SPWrtContinue asks recv for at most what its buffer holds if and only if TotalLen - ErrorCode does not read as negative, which for a request with lengths that are not negative is that its data does not start behind its end |
| AspFraming.OverrunsHappen | AppleTalk-59/asp_if.c:700-707 | headers that get past the checks, with any buffer of at least 8 bytes and any payload: a length of -1, and a write that starts behind its end |
| AspFraming.RetryResumesExactly | AppleTalk-59/asp_if.c:678-733 | a retry with enough room resumes any packet, and leaves its write data, if and only if it is not a reply; a reply's payload is taken for a header |
| AspFraming.HeaderRoundTrip | AppleTalk-59/asp_if.c:170-177 | packet headers survive encoding and decoding |
| AspFraming.HeaderInBytes | AppleTalk-59/asp_if.c:170-177 | where each header field is among the 16 bytes, high byte first |
| AspSession.ServerSession.SPGetRequest | AppleTalk-59/asp_if.c:678-733 | however recv cuts the payload, the call does what is specified, an overrun included, unless the session closes |
| AspSession.ServerSession.Serve | AppleTalk-59/asp_if.c:678-1207 | one call of either kind on a stream of well-formed packets takes exactly the next payload bytes due and leaves the session at the right place, unless a header came in pieces and closed it |
| AspSession.ServerSession.ServeAll | AppleTalk-59/asp_if.c:678-1207 | any sequence of such calls, however recv cuts the stream: every payload byte handed over or drained once and in order, up to the end or to the first header in pieces |
| AspSession.ServerSession.SPWrtContinue | AppleTalk-59/asp_if.c:1171-1207 | for every session, the data of a write handed over, with the excess drained 1024 bytes at a time, or the session closed, or more asked for than the buffer holds |
| AspStatus.BytesMove | AppleTalk-59/asp_if.c:1096-1134 | every byte behind the five shorts is found again at its new place |
| AspStatus.OffsetsFollowExactly | AppleTalk-59/asp_if.c:1115-1121 | each of the three offset fields follows the byte it pointed to if and only if that byte is in the body: not in the name, not in the icon |
| AspStatus.FlagsRaised | AppleTalk-59/asp_if.c:1128-1128 | of the flags exactly bits 4 and 5 are raised, and every other bit is as it was |
| AspStatus.OffsetsInBytes | AppleTalk-59/asp_if.c:1115-1123 | the four offset fields in the block's own bytes: 0 stays 0, and the others grow by pad and new offsets, the icon's also by 17 and the addresses |
| AspStatus.OffsetsKeepMeaning | AppleTalk-59/asp_if.c:1115-1121 | an offset into the body points to the same bytes after the move, as far as the body reaches |
| AspStatus.IconKeepsMeaning | AppleTalk-59/asp_if.c:1122-1127 | the icon moves as a whole and its offset with it |
| AspStatus.NewOffsetsLead | AppleTalk-59/asp_if.c:1104-1114 | the two new offsets stand at an even place and lead to the signature and the counted addresses, which fill exactly the gap before the icon |
| AspStatus.OffsetsIntoIconDoNot | AppleTalk-59/asp_if.c:1116-1121 | what becomes of an offset into the first 16 bytes of the icon: it points into the signature instead |
| AspStatus.RelocatedIsComplete | AppleTalk-59/asp_if.c:1087-1134 | the description of the new block leaves nothing open but the pad byte |
| AspStatus.SPNewStatus | AppleTalk-59/asp_if.c:1073-1134 | for every block: refused if and only if too long, outside if and only if not regular; otherwise the copies into the static buffer, in the code's order, produce a block of that description and touch nothing behind it, and it stays inside the buffer exactly when the old one was shorter than the checked size by what is added |
| AspStatus.RegularExactly | AppleTalk-59/asp_if.c:1096-1134 | name, body and icon lie in this order within the block if and only if every stretch the code copies does |
| TimeBase.SplitMultiplicationIsExact | AppleKeyLargo-1.0d6/KeyLargo.cpp:208-211 | for all register values the four partial products, wrapping wherever they do, give floor((gt * ratio + 2^31) / 2^32) modulo 2^64 |
| TimeBase.RatioIsRightExactly | AppleKeyLargo-1.0d6/KeyLargo.cpp:187-189 | the ratio is busSpeed * 2^32 / 73728000 if and only if busSpeed is below 2^31; above, it is the negative of what 2^32 - busSpeed gives |
| TimeBase.ScalingError | AppleKeyLargo-1.0d6/KeyLargo.cpp:187-211 | the result is within half a tick, plus gt / 2^32, of the ideal gt * busSpeed / 73728000 |
| TimeBase.StableReadIsExact | AppleKeyLargo-1.0d6/KeyLargo.cpp:201-206 | two equal high words make the pair the value the counter held at the low read |
| TimeBase.ReadCounter | AppleKeyLargo-1.0d6/KeyLargo.cpp:201-206 | the retry loop returns the first such value |
| TimeBase.Registers.SyncTimeBase | AppleKeyLargo-1.0d6/KeyLargo.cpp:182-221 | for every bus speed the time base is set from the second timer reading and the ratio as computed, and the difference to the old one is returned |
| TimeBase.Registers.SetWatchDogTimer | AppleKeyLargo-1.0d6/KeyLargo.cpp:1181-1208 | the watchdog registers hold counter + timeOut * 18432000 modulo 2^64, and it is enabled unless timeOut is 0 |
| Nbp.AllRepliesAreFirstOccurrences | AppleTalk-59/nbp_send.c:315-348 | over any packets the reply array holds the first occurrence of each (net, node, socket, enumerator) in order of arrival, up to max |
| Nbp.FirstOccurrencesRight | AppleTalk-59/nbp_send.c:325-341 | that list has each key once, brought by the tuple that came first, in the order in which those tuples came |
| Nbp.WalkRecoversAll | AppleTalk-59/nbp_send.c:351-365 | packing tuples one behind the other and walking them by nbp_len recovers all of them |
| Nbp.PackedInBytes | AppleTalk-59/nbp_send.c:351-380 | what is on the wire, byte for byte |
| Nbp.UnpackPacked | AppleTalk-59/nbp_send.c:368-395 | a packed tuple unpacks to itself and its length is where the next one begins |
| Nbp.PackTuple | AppleTalk-59/nbp_send.c:368-380 | the three counted names are written behind the address, and nothing else |
| Nbp.DoNbpReply | AppleTalk-59/nbp_send.c:315-348 | the caller's array and pointer after one packet are the accumulation of its tuples, up to the first new one with a name of more than 32 bytes |

## Left out

- MeshMachine.StepKeepsInv: does not model parity errors, bus resets or a chip that miscounts; the target may stop at any byte but keeps to the transfer's direction.
- MeshSession.EveryByteArrives: assumes each batch can be compiled, by the condition of RightExactlyWhenCompilable at the offset where it starts; a data phase with bytesTransferred elsewhere than at the interrupt halts the driver, and so ends a session.
- MessageIn.MessageReader.DoMessageInPhase: stops at the 21st byte of a message, which goes over fMsgInState and then other fields; that the state follows three bytes of padding is the layout of a four-byte enumeration behind a byte. What a message makes the driver do is outside it, but for Message Reject.
- MESH arbitration, selection, the status, sense and bit-bucket stages of the fixed descriptor list, reselection and bus reset: chip errata and an unseen superclass.
- MessageOut.MessagesAreFramed: assumes that the command's tag message is a two-byte and its abort message a plain one-byte message, as their names say.
- MeshController.Controller.UpdateCP: what a program that reaches past its area overwrites there is not modelled; the array simply goes on.
- NvramStore.CrashAtomicity: assumes an atomic erase and no forged half-written image, as stated above.
- NvramStore.Core99NVRAM.WriteBlock: the flash command bytes and the status polling of waitForCommandDone are an argument that says whether the device reports success.
- NvramStore.Core99NVRAM.Read: what a copy outside the shadow does is not modelled; Write likewise.
- AudioRing.RingRefinesTape: does not model floating-point rounding; addition is exact.
- AudioDriver.DmaEngine.MixAndClip: the model stops before a store outside the buffers; null arguments and a sample count (frames times channels) of more than 32 bits are not modelled.
- AudioDriver.DmaEngine.RemoveUserClient: detachUserClients, which notes the same stop position for all clients at once, is not a member of its own.
- AudioClients.UserClient.RegisterClientBuffer: what allocating, preparing and mapping come to is an argument; releasing what a failure leaves half made is not modelled, nor a stream's format that changes after a registration.
- convertFromInputStream and the input side of the audio family: a copy without wrap-around of interest.
- RwLock.StepKeepsInv: counters are unbounded integers, so an overflow of short counters is not modelled; priorities and fairness of the mutex, and what a mutex does after mutex_clear, are not either.
- Ps2.ReadExpectingRight: keyboard interrupts that take a byte off the port between two polls of a read, and drivers that are not registered, are not modelled.
- Ps2Controller.Controller.ProcessRequest: what is written to the ports is not recorded; the completion routine is not called.
- interruptOccurred and the debugger escape sequence of the PS/2 controller: the first only drains the queue, the second reaches a debugger.
- AspSession.ServerSession.SPGetRequest: a request saved during an attention is not modelled; a header that arrives in pieces closes the session, as in the code; what recv does when asked for more than the buffer holds is not part of this model.
- AspFraming.FramingIsExact: replies too big for the buffer are left to SPGetReply, whose own retry is not part of this model; a header that recv returns in pieces is outside its runs; AspSession.ServerSession.ServeAll says how far they get then.
- AspStatus.SPNewStatus: what the copies of a block that is not regular come to is not modelled; obtaining signature and addresses is not either.
- TimeBase.Registers.SyncTimeBase: assumes counter readings of which one triple is stable, and that the counters do not wrap 64 bits between reads.
- Nbp.DoNbpReply: assumes a packet made of as many well-formed tuples as it announces; what the copy of a long name overwrites is not modelled. Sockets, retries and timeouts of the lookup are left out.
- KeyLargo register save and restore, Heathrow interrupts, platform experts, power management, the other AppleTalk calls and configuration files: glue over unseen classes, or input and output.
