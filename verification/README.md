# Verified model of the ipc-tunnel protocols

The system connects Linux on one core of a Zynq with a bare-metal program on the
other core. The two sides share packet rings, a seqlock-protected snapshot and a
few small protocols on top of them. This project models those protocols in Dafny
and proves what they promise for every interleaving of the two sides, every drop
pattern and every point of failure.

Each concurrent protocol is a step system: a `State`, an `Action` per access to
shared memory, `Enabled` and `Next`, an invariant, and theorems about all runs.
Beside it stand the routines in the shape the source gives them (classes with
fields, arrays and loops). Where the other side can interfere, what it does between
two accesses is a parameter of the routine.

| file | models |
|---|---|
| `RingProtocol.dfy` | one direction of a tunnel, one access per step, refining a bounded FIFO |
| `SlotGeometry.dfy`, `TunnelDriver.dfy` | slot layout in flat memory; read and write calls of both processors |
| `Seqlock.dfy`, `SnapshotCode.dfy` | the shared-memory snapshot and its reader and writer routines |
| `StatsChannel.dfy`, `StatsCode.dfy` | the lossy statistics channel, its producers and its consumer |
| `Throughput.dfy`, `ThroughputCode.dfy` | the three-phase throughput measurement |
| `CommandCodec.dfy`, `CommandSender.dfy` | variable-set commands: format, retrying sender, receiver, end-to-end delivery |
| `Scheduler.dfy` | rate dividers and nested interrupts |
| `KickPoll.dfy` | waiting for a kick without losing one |
| `GlobalTimer.dfy` | the high/low/high read of the 64-bit timer |
| `DriverInit.dfy` | driver initialisation, its unwind paths, and unloading |
| `Bytes.dfy`, `ModArith.dfy` | shared definitions and facts about remainders |

Modelling decisions:

- Shared memory is sequentially consistent; barriers and cache attributes are not modelled.
- 32-bit and 16-bit wrap-around is written out wherever the code depends on it
  (seqlock counter, iteration and packet numbers, timestamps, slot size).
- `sizeof(struct PacketHeader)` is 8: two 32-bit words and a zero-length array.
- The bare-metal ring code stores the size word before the payload, the Linux driver after it;
  the ring protocol allows both orders.
- Each call keeps a log of its accesses and of those offered to the other side between them; its contract says what
  the log is, so that the points at which the other side can interfere are part of what is proved.
- Kernel error codes that the driver only passes on are -1.
- Clocks, random numbers, user-copy faults and the other processor's accesses are parameters.
- `dev_write` returns 0 both for an empty buffer and for a full ring, as the code does.
- A property that needs a bound is stated with the bound the code can meet, and shown to fail
  without it or to hold exactly under it: `Seqlock.TornReadAfterFullWrap`,
  `Seqlock.RefusedReadMissesNothing` with `Seqlock.MissedUpdatesAfterFullWrap`,
  `StatsChannel.WideningIsExactIff`, `StatsChannel.SingleDropsLoseNothing`, `StatsChannel.AccountedIff`,
  `SlotGeometry.SlotSizeIsLeastFit`.
- Later accepted seqlock reads return strictly later updates without any bound on the number
  of updates in between; only the contents of a read and a negative answer need one.
- `ipc_tunnel_init` ignores what `set_ipi_handler` returns, and `ipc_tunnel_exit` clears every handler: a failed
  call leaves a loaded driver without that handler and makes the unloading clear one that was never set
  (`DriverInit.Driver.LoadAndUnload` states exactly when).

Main results:

- **Ring**: `RingProtocol.RunRefinesFifo`, `RingProtocol.ConsumedIsPrefixOfPublished`, `RingProtocol.FilledSlotIsPrivate`,
  `RingProtocol.ReaderRunAgrees`, `RingProtocol.WriterRunAgrees`;
  on flat memory `TunnelDriver.Tunnel.DevWrite` and `TunnelDriver.Tunnel.DevRead`.
- **Seqlock**: `Seqlock.AcceptedReadIsOneUpdate`, `Seqlock.AcceptedReadsMoveForward`, `Seqlock.RefusedReadMissesNothing`;
  in code `SnapshotCode.SharedMemory.UpdateVariablesFromShm`.
- **Statistics**: `StatsChannel.ReconstructionIsExact`, `StatsChannel.AccountedIff`, `StatsChannel.WideningIsExactIff`,
  `StatsChannel.SingleDropsLoseNothing`;
  both ends together `StatsCode.RunShm` and `StatsCode.RunEveryIteration`.
- **Throughput**: `Throughput.EveryRunCompletes`, `Throughput.NeverStuck`, `Throughput.PhasesAgree`,
  `Throughput.LatenciesAreMeasured`; in code `ThroughputCode.DoTest`.
- **Commands**: `CommandCodec.DecodeUndoesEncode`, `CommandCodec.HandledPacket`,
  `CommandSender.T0CommandSender.SendEveryOtherIteration`,
  `CommandSender.DeliveredCommandsTakeEffect`, `CommandSender.SenderAndTunnelDeliver`.
- **Interrupts**: `Scheduler.NestingIsByUrgency`, `Scheduler.RatesAreDivided`, `Scheduler.TakenExactlyWhen`,
  `Scheduler.HandlersDrain`, `Scheduler.RunSystem`.
- **Kicks**: `KickPoll.EveryKickIsNotified`, `KickPoll.NeverSleepsThroughKick`, `KickPoll.Remoteproc.PlatformPoll`.
- **Timer**: `GlobalTimer.Now`, `GlobalTimer.NowTwice`, `GlobalTimer.RetriesAtMostOnce`.
- **Driver**: `DriverInit.Driver.Init`, `DriverInit.Driver.LoadAndUnload`.

## Model

| member | source | states |
|---|---|---|
| SlotGeometry.SlotSizeIsLeastFit | kernel_module_src/ipc-tunnel.c:635-636 | the 16-bit slot size is the least multiple of 32 that holds header and payload if and only if the maximum packet is at most 65496 bytes |
| SlotGeometry.SlotsAreDisjoint | kernel_module_src/ipc-tunnel.c:272-278 | every slot ends before any later slot starts |
| SlotGeometry.AcceptedWriteStaysInSlot | kernel_module_src/ipc-tunnel.c:427-437 | any byte an accepted write touches is inside the mapping and outside every other slot |
| SlotGeometry.ConfiguredRingsAreDisjoint | kernel_module_src/ipc-tunnel.c:118-219 | the control headers and ring buffers of the six configured tunnels do not overlap |
| RingProtocol.FreeSlotIsFree | kernel_module_src/ipc-tunnel.c:301-323 | the slot at the write index is none of the unread slots |
| RingProtocol.FillStepKeepsInv | variants/ipc-tunnel-v3/ipc_tunnel.c:129-131 | storing payload or size, in either order, leaves every unread packet intact |
| RingProtocol.CheckSpaceKeepsInv | kernel_module_src/ipc-tunnel.c:301-323 | comparing with a possibly old peer index keeps the invariant, and finds the ring full only if it holds N-1 packets at that instant |
| RingProtocol.CheckDataKeepsInv | kernel_module_src/ipc-tunnel.c:280-299 | the reader finds the ring empty only if it is empty at that instant |
| RingProtocol.IndicesTell | kernel_module_src/ipc-tunnel.c:280-323 | the ring looks full to the writer exactly if it holds N-1 packets and empty to the reader exactly if it holds none |
| RingProtocol.PublishKeepsInv | kernel_module_src/ipc-tunnel.c:330-332 | advancing the write index appends exactly the filled packet, and there was room |
| RingProtocol.ReleaseKeepsInv | kernel_module_src/ipc-tunnel.c:326-328 | advancing the read index removes exactly the packet that was delivered, cut to the reader's buffer |
| RingProtocol.StepRefinesFifo | kernel_module_src/ipc-tunnel.c:379-444 | every access of either side keeps the invariant and is one move of a FIFO of capacity N-1; an aborted copy does not move the queue |
| RingProtocol.RunKeepsInv | kernel_module_src/ipc-tunnel.c:379-444 | the invariant holds in every state of every interleaving |
| RingProtocol.RunRefinesFifo | kernel_module_src/ipc-tunnel.c:379-444 | every interleaving is a run of the bounded FIFO |
| RingProtocol.ConsumedIsPrefixOfPublished | kernel_module_src/ipc-tunnel.c:280-343 | deliveries are a prefix of the published packets up to truncation; unread packets sit in slots read index to write index modulo N |
| RingProtocol.FilledSlotIsPrivate | kernel_module_src/ipc-tunnel.c:301-323 | the slot being filled is neither unread nor being copied out, in every reachable state |
| RingProtocol.ReaderRunAgrees | kernel_module_src/ipc-tunnel.c:379-444 | whatever the reader does comes out the same with and without a write in progress |
| RingProtocol.WriterRunAgrees | kernel_module_src/ipc-tunnel.c:379-444 | whatever the writer does comes out the same with and without a read in progress |
| TunnelDriver.OtherSlotsKeep | kernel_module_src/ipc-tunnel.c:272-278 | a change inside one slot of the flat buffer leaves what every other slot decodes to unchanged |
| TunnelDriver.StoredByteDecodes | kernel_module_src/ipc-tunnel.c:433-435 | a payload byte stored in the flat buffer changes exactly that byte of that slot |
| TunnelDriver.StoredSizeDecodes | kernel_module_src/ipc-tunnel.c:437-437 | the stored size word changes exactly the size of that slot |
| TunnelDriver.ConfiguredBacklog | kernel_module_src/ipc-tunnel.c:118-219 | the configured rings hold at most three packets (tunnels 1 and 4) or one |
| TunnelDriver.Tunnel.constructor | variants/ipc-tunnel-v3/ipc_tunnel.c:57-74 | both indices start equal and the ring is empty whatever the buffer holds |
| TunnelDriver.Tunnel.Access | kernel_module_src/ipc-tunnel.c:280-343 | one access on the flat buffer and the indices is exactly one protocol step |
| TunnelDriver.Tunnel.PeerRuns | variants/ipc-tunnel-v3/ipc_tunnel.c:89-141 | the other processor's accesses, those possible at their moment, and nothing else change the tunnel |
| TunnelDriver.Tunnel.TryGetWritePacket | kernel_module_src/ipc-tunnel.c:301-323 | hands out the slot at the write index exactly if, after the reader's accesses before the two index loads, the ring holds fewer than N-1 packets; the accesses are logged in order |
| TunnelDriver.Tunnel.CopyFromUser | kernel_module_src/ipc-tunnel.c:433-435 | copies all bytes, or aborts exactly when the user buffer faults, publishing nothing; the reader acts before every byte |
| TunnelDriver.Tunnel.DevWrite | kernel_module_src/ipc-tunnel.c:414-444 | publishes exactly the given packet or nothing; a fitting packet finds no room exactly if the ring is full at the comparison, whatever the reader did before it; the return code says which of empty, too big, full, fault or sent happened, and the log lists every access of both sides in order |
| TunnelDriver.Tunnel.Send | app/util/ipc_tunnel.cpp:50-53 | a send of the Linux program succeeds exactly if the write call takes the packet, which is exactly if the ring has room at the comparison |
| TunnelDriver.Tunnel.IpcTunnelWrite | variants/ipc-tunnel-v3/ipc_tunnel.c:110-141 | publishes exactly the given packet or nothing; refuses a fitting packet exactly if the ring is full at the comparison; size word before payload, the reader acting before every access |
| TunnelDriver.Tunnel.TryGetReadPacket | kernel_module_src/ipc-tunnel.c:280-299 | finds the oldest packet exactly if, after the writer's accesses before the two index loads, there is one |
| TunnelDriver.Tunnel.WaitForReadPacket | kernel_module_src/ipc-tunnel.c:392-395 | finds the oldest packet, or has checked once more for every wake-up and the ring is empty at the last check; the log lists every check |
| TunnelDriver.Tunnel.CopyToUser | kernel_module_src/ipc-tunnel.c:399-407 | copies exactly the oldest packet cut to the caller's length, or aborts exactly on a fault; the writer acts before every access |
| TunnelDriver.Tunnel.ReadNow | kernel_module_src/ipc-tunnel.c:385-391 | without waiting, no data is reported exactly if the ring is empty at the one check, whatever the writer did before it |
| TunnelDriver.Tunnel.ReadWhenReady | kernel_module_src/ipc-tunnel.c:392-411 | waiting ends with a packet or, after a check on every wake-up, with a signal; the log lists every access of both sides in order |
| TunnelDriver.Tunnel.DevRead | kernel_module_src/ipc-tunnel.c:379-412 | delivers and removes exactly the oldest packet cut to the caller's length, only into a buffer that does not fault, or removes nothing and says why; without data it has checked on every wake-up and the ring is empty |
| TunnelDriver.Tunnel.IpcTunnelRead | variants/ipc-tunnel-v3/ipc_tunnel.c:89-108 | hands out the oldest packet exactly if there is one at its check, at most one per call |
| Seqlock.WriterStepKeepsInv | src/application_shm.c:143-148 | every single store of the writer keeps old and new words apart as the counter says |
| Seqlock.CopyIsUntorn | app/src/t0dataprocess.hpp:95-104 | an unchanged counter after the copy means that the copy is one update, up to a full wrap |
| Seqlock.RunKeepsInv | app/src/t0dataprocess.hpp:81-104 | the invariant holds in every state of every interleaving |
| Seqlock.AcceptedReadIsOneUpdate | app/src/t0dataprocess.hpp:81-104 | an accepted read returns exactly what one completed update stored, provided fewer than 2^31 updates complete during the copy |
| Seqlock.AcceptedReadsMoveForward | app/src/t0dataprocess.hpp:88-104 | successive accepted reads return strictly later updates |
| Seqlock.RefusedReadMissesNothing | app/src/t0dataprocess.hpp:82-89 | a read that returns false does so between updates, and the newest completed update is the one the last accepted read returned if and only if fewer than 2^31 updates have completed since |
| Seqlock.ManyUpdates | src/application_shm.c:143-148 | any number of complete updates in a row is a run, and what it leaves behind |
| Seqlock.TornReadAfterFullWrap | app/src/t0dataprocess.hpp:91-101 | with 2^31 updates during one copy a mixed snapshot is accepted |
| Seqlock.MissedUpdatesAfterFullWrap | app/src/t0dataprocess.hpp:88-89 | a run in which a read returns false although 2^31 updates have completed |
| SnapshotCode.SharedMemory.constructor | src/application_shm.c:104-106 | the cleared memory is the protocol's initial state |
| SnapshotCode.SharedMemory.WriterRuns | src/application_shm.c:143-148 | the writer's accesses, those possible at their moment, and nothing else change the memory |
| SnapshotCode.SharedMemory.StoreUpdate | src/application_shm.c:143-148 | the memory holds the new values and one more update is complete |
| SnapshotCode.SharedMemory.CopyWords | app/src/t0dataprocess.hpp:91-93 | each word is copied once, with the writer active before every load; the resulting state is exactly that of those accesses |
| SnapshotCode.SharedMemory.CopyAndRecheck | app/src/t0dataprocess.hpp:91-104 | accepted exactly if the counter is back where the copy began: then the values are one update and are remembered, otherwise nothing changes and the loop goes on |
| SnapshotCode.SharedMemory.Attempt | app/src/t0dataprocess.hpp:81-104 | one turn of the loop is exactly its accesses; undisturbed during the copy it is blocked, unchanged or updated as the counter and the memory after the writer's earlier accesses say |
| SnapshotCode.SharedMemory.UpdateVariablesFromShm | app/src/t0dataprocess.hpp:72-111 | true returns one update's values and remembers its counter; false only between updates with the counter equal to the remembered one; the loop is still turning only after all its turns, if the last was disturbed or the writer is inside an update, and never with an idle writer |
| StatsChannel.WideningStep | app/src/StatsProcessing.hpp:55-62 | carrying into the high word adds the true time difference modulo 2^32 |
| StatsChannel.ReplayTracks | app/src/StatsProcessing.hpp:54-64 | the loop appends the new iterations oldest first and none twice |
| StatsChannel.AddKeepsInv | app/src/StatsProcessing.hpp:45-76 | a packet adds its new iterations, counts those that fell out of the register, and old packets change nothing |
| StatsChannel.ReconstructionIsExact | app/src/StatsProcessing.hpp:45-76 | for every choice and order of arriving packets below iteration 2^32 - 1 each record is what its iteration measured, iterations strictly increase, and records plus misses equal the last iteration plus one |
| StatsChannel.AccountedIff | app/src/StatsProcessing.hpp:45-76 | for packets in order and runs of any length, records plus misses equal the newest iteration plus one if and only if that iteration is below 2^32 - 1, or is 2^32 - 1 and not the first to arrive |
| StatsChannel.WrapStopsTheConsumer | app/src/StatsProcessing.hpp:47-49 | after the 32-bit iteration number has wrapped a new packet is taken for an old one |
| StatsChannel.LargestNumberFirst | app/src/StatsProcessing.hpp:48-52 | if iteration 2^32 - 1 is the first to arrive nothing is recorded and nothing is counted as missed |
| StatsChannel.WideningIsExactIff | app/src/StatsProcessing.hpp:54-64 | rebuilt 64-bit times differ from the true ones by one constant if and only if consecutive recorded starts are less than 2^32 ticks apart |
| StatsChannel.GapFitsBacklog | src/application_shm.c:113-116 | with a send every 8 ticks and 16 entries, a packet covers everything since the last arrival exactly when at most one send in between was dropped |
| StatsChannel.SendSchedule | src/application_shm.c:113-116 | the sends carry iterations 6, 14, 22 and so on, sixteen entries each |
| StatsChannel.SingleDropsLoseNothing | src/application_shm.c:136-167 | with sends every 8 ticks and 16 entries, nothing is missed if and only if no packet arrives after two drops in a row |
| StatsCode.ShiftIn | src/application.c:142-145 | the register moves by one and the newest value is in front |
| StatsCode.TimeLevel.Measure | src/application.c:142-146 | entry i holds the i-th newest measurement |
| StatsCode.TimeLevel.Packet | src/application.c:148-148 | the packet sent is the register of the current iteration |
| StatsCode.TimeLevel.Iterate | src/application.c:135-154 | every run of the task sends its own register and counts a refused packet |
| StatsCode.TimeLevel.T0Shm | src/application_shm.c:126-169 | sends exactly every eighth tick, the skipped first one included, with the register of iteration tick minus two, and counts exactly the refused sends |
| StatsCode.StatsProcessing.AddStats | app/src/StatsProcessing.hpp:45-76 | the downward loop computes the consumer step that the reconstruction theorem is about |
| StatsCode.RunShm | src/application_shm.c:126-169 | producer and consumer together for n ticks: one arrival entry per eight ticks, the consumer is what the pattern makes of the measurements, refused sends are counted, and nothing is missed if and only if no packet arrives after two drops in a row |
| StatsCode.RunEveryIteration | src/application.c:135-154 | a task that sends in every run and its consumer together for n runs: the consumer is rebuilt from exactly the accepted packets |
| StatsCode.AcceptedOfListsAll | src/application.c:148-150 | the packets the consumer gets are those of the accepted iterations, each once and in order |
| Throughput.RequestTakenKeepsInv | unit_tests/throughput.c:34-63 | phase 0 stores the latency of each request and leaves the phase with the K-th |
| Throughput.PrepareKeepsInv | unit_tests/throughput.c:104-128 | the next reply carries the latency stored for the request of the same position, and the K-th one ends the phase |
| Throughput.StepKeepsInv | unit_tests/throughput.c:95-140 | every step of either program keeps the invariant |
| Throughput.NextIsReached | unit_tests/throughput.c:95-140 | a step, timed by the clock, from a state that some run reaches leads to one that some run reaches |
| Throughput.StepCountsDown | unit_tests/throughput.c:95-140 | every step is one of exactly R(5K+4) |
| Throughput.RemainingIsZeroWhenFinished | app/unit_tests/throughput.cpp:68-116 | no step is left exactly when the Linux program has finished |
| Throughput.NeverStuck | unit_tests/throughput.c:95-140 | until the last round ends some step is enabled |
| Throughput.PhasesAgree | unit_tests/throughput.c:95-140 | the two programs' phases agree and channels are empty at every hand-over |
| Throughput.ChannelsAreBounded | app/unit_tests/throughput.cpp:78-78 | neither channel ever holds more than it has room for |
| Throughput.EveryRunCompletes | app/unit_tests/throughput.cpp:68-116 | all runs end after the same number of steps with every round complete: K latencies in order and one summary |
| Throughput.LatenciesAreMeasured | unit_tests/throughput.c:34-63 | in every run the i-th latency a finished round reports is the time of its own i-th receive action minus that of its i-th send action, and the summary the time from its first to its last receive |
| Throughput.ConfiguredTest | app/unit_tests/throughput.cpp:32-33 | with 10000 packets and 10000 latency slots every reply carries the measured latency, in at most 500040 steps |
| ThroughputCode.BareMetalTest.OnPhase0 | unit_tests/throughput.c:34-63 | the globals after the phase 0 callback, reply size and shutdown flag included |
| ThroughputCode.BareMetalTest.OnPhase2 | unit_tests/throughput.c:65-93 | the globals after the phase 2 callback, shutdown flag included |
| ThroughputCode.BareMetalTest.PrepareReply | unit_tests/throughput.c:104-128 | the globals and the reply after one turn of phase 1 |
| ThroughputCode.BareMetalTest.Turn | unit_tests/throughput.c:95-140 | one turn of the test loop on the real globals is the protocol step that those globals select |
| ThroughputCode.LetBareRun | unit_tests/throughput.c:95-140 | the bare-metal program makes the given number of steps, or as many as it can before it has to wait |
| ThroughputCode.WaitFor | app/unit_tests/throughput.cpp:78-78 | a blocking access always succeeds in the end |
| ThroughputCode.ReceiveLatencies | app/unit_tests/throughput.cpp:82-97 | the latency table holds the replies in order |
| ThroughputCode.FinishRound | app/unit_tests/throughput.cpp:100-115 | NEXT is answered by the summary, which closes the round |
| ThroughputCode.DoRound | app/unit_tests/throughput.cpp:68-115 | one round ends with its table and span reporting exactly that round |
| ThroughputCode.DoTest | app/unit_tests/throughput.cpp:68-116 | against a freshly started bare-metal program the nested loops terminate in a state that a run of the protocol, with send and receive times read from the clock, reaches and that program is in; every table holds the latencies of its round's requests and every span is last minus first receive time |
| CommandCodec.LERoundTrip | include/shared_state.h:68-75 | little-endian header fields read back as written |
| CommandCodec.DecodeUndoesEncode | src/application.c:48-70 | decoding encoded commands applies exactly those assignments in order and ends at the encoded length |
| CommandCodec.AppliedEntries | src/application.c:48-70 | a list of commands leaves in every variable of the four tables the value of the last command for it, and the others as they were |
| CommandCodec.DecodedEntries | src/application.c:48-70 | decoding encoded commands sets every variable to the value of the last command for it and leaves the others alone |
| CommandCodec.HeaderFields | app/src/t0dataprocess.hpp:131-137 | the header fields are recovered from the packet |
| CommandCodec.HandleUndoesEncode | src/application.c:36-71 | handling an encoded packet has exactly the command's effect |
| CommandCodec.HandledPacket | src/application.c:36-71 | handling an encoded packet: variables entry by entry, ids, time stamps, 32-bit latency, and running unless the flags are 0xDEAD |
| CommandSender.RandomSetsFit | app/src/t0dataprocess.hpp:140-172 | every drawn command has an id below 16 and n of them take between 3n and 10n bytes |
| CommandSender.DrawnCommand | app/src/t0dataprocess.hpp:141-171 | command i is fixed by the random number shifted by 2i bits: tag its low two bits, id plus 13 modulo 16 |
| CommandSender.ShiftedIsQuotient | app/src/t0dataprocess.hpp:141-171 | shifting i times by two bits is dividing by the i-th power of four |
| CommandSender.DrawnBytes | app/src/t0dataprocess.hpp:139-172 | the bytes of the three commands written out: id, tag and a value of 8, 4, 2 or 1 bytes each |
| CommandSender.CommandFitsBuffer | app/src/t0dataprocess.hpp:65-65 | the three commands always take at most 46 of the 48 bytes |
| CommandSender.WriteSets | app/src/t0dataprocess.hpp:139-172 | the cursor loop leaves exactly the encoding of the drawn commands behind the header; the first is id (rand + 13) mod 16 and tag rand mod 4 |
| CommandSender.WriteCommand | app/src/t0dataprocess.hpp:131-174 | the buffer up to the packet size is the encoded command |
| CommandSender.T0CommandSender.Generate | app/src/t0dataprocess.hpp:128-175 | adds one command with the next packet id and leaves it waiting |
| CommandSender.T0CommandSender.Offer | app/src/t0dataprocess.hpp:177-183 | the ring takes the waiting packet unmodified exactly if it has room at the comparison; otherwise the packet stays and the refusal is counted |
| CommandSender.T0CommandSender.SendRandomVariableUpdate | app/src/t0dataprocess.hpp:123-184 | generates, from the given clock reading and random number, only when nothing waits; what the ring publishes is what was generated, in order |
| CommandSender.T0CommandSender.SendEveryOtherIteration | app/src/main.cpp:119-134 | over the whole loop the ring publishes exactly the accepted commands, at most one waits, acceptances plus refusals are the attempts, and each command was drawn from its own iteration's clock and random number |
| CommandSender.CommandTarget.StoreValue | src/application.c:52-69 | exactly the addressed entry of the table of that tag changes, in the array itself |
| CommandSender.CommandTarget.StoreValues | src/application.c:48-70 | the pointer-moving loop computes the decoding function, cursor included |
| CommandSender.CommandTarget.HandleT0Packet | src/application.c:36-71 | the whole handler: statistics fields, timestamps, shutdown flag and variables |
| CommandSender.GeneratedCarries | app/src/t0dataprocess.hpp:128-175 | whatever state the target is in, handling a generated packet does what its command says |
| CommandSender.GeneratedKeepsRunning | src/application.c:46-46 | an ordinary command does not stop the bare-metal program |
| CommandSender.CarriedTakesEffect | src/application.c:36-71 | handling n packets that carry n commands has the effect of those commands in order |
| CommandSender.DeliveredCommandsTakeEffect | app/src/t0dataprocess.hpp:128-183 | over every interleaving of the ring the bare-metal variables are the result of the oldest generated commands, each once and in order |
| CommandSender.SenderAndTunnelDeliver | app/src/t0dataprocess.hpp:128-183 | for the sender and the tunnel as the loop leaves them, the commands read have been carried out in order, each once, and those still under way fit ring and send buffer |
| Scheduler.DivideKeepsInv | src/scheduler.c:178-188 | the dividers stay tick count modulo multiplier, the trigger counts tick count divided by it |
| Scheduler.StepKeepsInv | src/scheduler.c:168-203 | every interrupt step keeps nesting order, divider counts and the balance of triggers |
| Scheduler.NestingIsByUrgency | src/scheduler.c:106-152 | active handlers are strictly more urgent towards the top, no task is re-entered, T0 is never interrupted |
| Scheduler.TakenExactlyWhen | src/scheduler.c:106-152 | an interrupt is taken exactly if it is pending, nothing pending is more urgent, and the innermost handler, if any, has enabled nesting and is less urgent |
| Scheduler.ThreeLevelsNest | src/scheduler.c:191-203 | a run in which T1 interrupts T2 and T0 interrupts T1 |
| Scheduler.RatesAreDivided | src/scheduler.c:165-189 | after n ticks T1 and T2 were triggered n/m1 and n/m2 times; every trigger started a handler, is pending, or merged into a pending one |
| Scheduler.SlowTickIsFastTick | src/main.c:22-30 | when m1 divides m2 a tick that triggers T2 triggers T1 too |
| Scheduler.HandlersDrain | src/scheduler.c:191-203 | the scheduler is idle exactly when no handler is active and nothing is pending |
| Scheduler.Dividers.TimerT0Interrupt | src/scheduler.c:168-189 | triggers T1 and T2 exactly on ticks divisible by their multipliers |
| Scheduler.RunTimerHandler | src/scheduler.c:168-189 | the handler's own counters and triggers are the protocol step |
| Scheduler.RunSystem | src/scheduler.c:168-203 | any sequence of interrupt events, driven by the handler's own counters, ends exactly where the protocol's steps for these events end, with the divided rates and the nesting order |
| Scheduler.ConfiguredRates | src/main.c:22-30 | with multipliers 4 and 20: n/4 and n/20 triggers, and T2 only ever together with T1 |
| KickPoll.StepKeepsInv | openamp/platform_info.c:229-265 | every step keeps an unseen kick recorded in the flag, the pending interrupt or the loop's position |
| KickPoll.StepComesCloser | openamp/platform_info.c:236-245 | with an unseen kick every own step comes closer to the notification pass; kicks and interrupts never set it back |
| KickPoll.KickWakes | openamp/platform_info.c:243-244 | with an unseen kick wfi returns, and the loop or the handler can always move |
| KickPoll.EveryKickIsNotified | openamp/platform_info.c:229-247 | after a kick and seven own steps of the loop a notification pass has started since the kick |
| KickPoll.NeverSleepsThroughKick | openamp/platform_info.c:243-243 | in every reachable state a sleeping loop with an unseen kick can wake |
| KickPoll.Remoteproc.constructor | openamp/zynq_a9_rproc.c:69-69 | the flag starts set |
| KickPoll.Remoteproc.Sleep | openamp/platform_info.c:243-243 | wfi returns exactly for a kick or another interrupt, and masks nothing away |
| KickPoll.Remoteproc.PlatformPoll | openamp/platform_info.c:229-247 | returns after one pass with every kick seen; stays asleep exactly if the flag was set and no kick came, with kicks possible between any two instructions and any number of wake-ups by other interrupts |
| KickPoll.Remoteproc.PlatformPollNoblock | openamp/platform_info.c:249-265 | makes a pass exactly if a kick came before interrupts were masked and had not been tested for |
| GlobalTimer.AgreeingAttemptIsExact | app/util/globaltimer.cpp:44-46 | equal high words make the combined value the counter's value at the low read |
| GlobalTimer.Now | app/util/globaltimer.cpp:39-50 | terminates and returns the counter's value at its last low read, the first attempt whose high words agree |
| GlobalTimer.NowTwice | src/application.c:13-21 | successive calls are monotone |
| GlobalTimer.TwoFailuresSpanALap | app/util/globaltimer.cpp:42-46 | two failed attempts in a row take more than 2^32 ticks |
| GlobalTimer.RetriesAtMostOnce | app/util/globaltimer.cpp:42-46 | if two attempts span at most 2^32 ticks the loop retries at most once |
| DriverInit.Driver.CreateDevices | kernel_module_src/ipc-tunnel.c:589-608 | the devices created are exactly those with a number set |
| DriverInit.Driver.AddCdevs | kernel_module_src/ipc-tunnel.c:610-622 | all character devices are added, or none is left |
| DriverInit.Driver.MapTunnel | kernel_module_src/ipc-tunnel.c:627-676 | the non-null pointers of a tunnel are exactly its mappings |
| DriverInit.Driver.MapMemory | kernel_module_src/ipc-tunnel.c:625-677 | all tunnels are mapped exactly if no mapping call fails |
| DriverInit.Driver.UnmapMemory | kernel_module_src/ipc-tunnel.c:691-725 | every mapping held is released and nothing else |
| DriverInit.Driver.SetIpiHandlers | kernel_module_src/ipc-tunnel.c:679-686 | exactly the handlers whose call did not fail are held; the result is ignored |
| DriverInit.Driver.DestroyDevices | kernel_module_src/ipc-tunnel.c:732-741 | only created devices are destroyed, then the class |
| DriverInit.Driver.LoadTunnels | kernel_module_src/ipc-tunnel.c:589-741 | everything is held, up to handlers that could not be set, or everything but the number region has been given back |
| DriverInit.Driver.Init | kernel_module_src/ipc-tunnel.c:546-747 | returns 0 exactly if no call before the handlers fails, and then holds all devices, character devices and mappings and the handlers that could be set; -ENOMEM exactly if a mapping is the first to fail; failure holds nothing and has released each acquired resource exactly once, mappings before character devices before devices before class before region |
| DriverInit.Driver.Exit | kernel_module_src/ipc-tunnel.c:749-776 | unloading gives back everything a loaded driver holds, once, the class and the region last, and clears exactly those handlers that were never set |
| DriverInit.Driver.LoadAndUnload | kernel_module_src/ipc-tunnel.c:546-776 | a successful load acquires exactly everything; load then unload leaves nothing; something that was never acquired is released if and only if setting a handler failed unnoticed |
| DriverInit.LoadedDriverHolds | kernel_module_src/ipc-tunnel.c:546-747 | a loaded driver holds 6n+2 resources, 38 for the six tunnels |

## Left out

- Weak memory, barriers and cache attributes: accesses are sequentially consistent steps.
- Shared-buffer regions: tunnel 2's region in the Linux table is larger than in the bare-metal table and reaches over tunnel 0's; only headers and ring buffers are claimed to be disjoint.
- TunnelDriver.Tunnel.DevRead: a blocking read is followed over a finite number of wake-ups, after which a signal is taken to arrive; the wait queue itself is not modelled.
- SnapshotCode.SharedMemory.UpdateVariablesFromShm: the loop is followed for a given number of turns, since the real one may spin for as long as the writer keeps interfering; what holds when the turns run out is part of the contract.
- CommandCodec.HandleUndoesEncode: covers packets built by `app/src/t0dataprocess.hpp`; the decoder checks neither lengths nor ids, so other packets are outside the contract.
- Preservation of a waiting command across shutdown: the shutdown command reuses the send buffer, so delivery is stated up to shutdown.
- The value arithmetic of commands (doubles and floats of a random number): values are opaque bytes of the right width.
- Send-time fields that the statistics consumer merely copies.
- The latencies that `app/unit_tests/throughput.cpp` measures itself for the other direction, and its throughput figures: differences of two clock readings that no other step uses.
- Opening and closing devices, polling and memory mapping by user processes.
- Integer overflow of slot size times packet count for configurations far beyond those of the table.
- The OpenAMP variant's packet buffer, the matrix-multiply demo, workloads, CSV output and averages: plumbing or numeric code with no protocol content.
