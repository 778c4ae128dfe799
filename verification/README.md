# Verified model of the kaonic communication daemon

kaonic-commd moves radio frames between a TDD mesh network, gRPC clients and a serial line, and is
replaced over the air by a small update service. This project models the parts of it that keep
state, and proves what they promise. Where the code does not meet its evident intent, the code is
modelled as it is, a concrete run shows the failure, and the exact condition under which it works is
proved.

| File | Models |
|---|---|
| `OtaProtocol.dfy`, `OtaRuns.dfy`, `OtaVersion.dfy`, `OtaService.dfy`, `OtaDaemon.dfy` | the update service: install, rollback and boot recovery, cut by power loss anywhere |
| `FrameQueue.dfy`, `Pipeline.dfy`, `PipelineRuns.dfy`, `GrpcService.dfy` | received frames: bounded queue, shared `_rx_frame`, stream handlers |
| `Packing.dfy` | bytes to protobuf words and back, in messages that are used again |
| `Hdlc.dfy`, `Deframer.dfy`, `Packet.dfy`, `SerialPump.dfy`, `SerialService.dfy` | the serial stack: stuffing, streaming deframer, packets, receive loop, dispatch |
| `Lifecycle.dfy` | starting and stopping the worker threads |
| `MeshLocks.dfy`, `MeshProgress.dfy`, `MeshNetwork.dfy` | the mutexes of the mesh networks and of the gRPC queue; transmit and update |
| `FanOut.dfy` | attaching listeners to the radios' broadcasters |

## How it is built

Concurrency and crashes are step systems over values: a state, the steps that are possible in it,
and lemmas about every run. The objects that the code updates in place are classes whose methods
follow the code statement by statement. The two are tied by a ghost log: after every operation a
method appends the new state (or the step) to the log, and the class invariant says that the log is
a run of the step system. What is proved of all runs, and of all their prefixes, therefore holds of
the methods.

## What was found

- **Updates.** From a state in which HASH describes APP, no sequence of uploads, crashes and
  interrupted recoveries loses the committed image, unless a restart falls into a HASH write
  (`OtaProtocol.CrashSafety`). Both conditions are necessary: every idle state of every run holds the
  image if and only if HASH describes APP at the start and HASH writes are atomic
  (`OtaRuns.SafeExactlyWhenCommitted`). A device delivered without a HASH file can lose its image to
  one interrupted backup (`OtaRuns.LosingRun`), and a torn HASH write can lose it from any committed
  state (`OtaRuns.TornHashLosesImage`); the code writes HASH with a plain copy, which is not atomic.
- **Reported version.** HASH and VERSION are written one after the other. In every run VERSION
  belongs to the package committed last as long as no restart fell between or into those two writes
  (`OtaVersion.VersionAtRest`). After a restart before the VERSION write the old version is reported
  (`OtaVersion.VersionCanLag`), after one inside it any text at all
  (`OtaVersion.VersionCanBeAnything`); so the condition is exact (`OtaVersion.VersionExactly`).
- **Upload decisions and the service.** An accepted package is committed or rolled back by one final
  status check, which comes after ten polls that found the service running or after one that did not
  (`OtaProtocol.CommitDiscipline`, `OtaService.RollbackFollowsCheck`, `OtaService.PollsPrecedeCheck`).
  Recovery stops the service before it restores APP. Rollback does not: if systemd brings the rejected
  image up between the check and the end of the restore, the final start leaves it running beside the
  restored APP (`OtaService.EarlyStartKeepsRejected`), and only then (`OtaService.RunsAppExactly`).
- **Serial input.** In `hdlc_processor::update` the flag that opens a frame also closes it, and the
  receive loop assigns `bytes_read = 0` where it means to compare. As written, no serial input can
  ever make the daemon configure a radio or transmit
  (`SerialService.AsWrittenNeverReachesTheRadio`): each flag asks for a checksum, and what follows it is
  decoded to an error payload exactly if it is the checksum of that flag (`SerialPump.AsWrittenOutput`,
  `SerialPump.AsWrittenLine`). With both slips corrected (the version called
  `Intended`) the loop delivers exactly the packets whose checksum matches (`SerialPump.Reassembly`,
  `SerialPump.LineReassembly`).
  The corrected `update` stores the opening flag and returns false; the corrected loop skips a read
  that delivered nothing.
- **Serial output.** `receive_frame` computes the stuffed form of its packet and then writes the packet
  itself, without a checksum. A client that expects frames takes it for noise unless it contains flags
  (`SerialService.OutboundIsUnframed`).
- **Receive streams.** In every run a client is sent, for each frame its handler popped, the frame
  that anyone had popped last when the handler copied `_rx_frame` (`Pipeline.DeliveryInEveryRun`).
  That is the handler's own frame exactly if nobody else pops between its pop and its copy
  (`PipelineRuns.TurnDelivers`); otherwise the delivery is right only if the two frames happen to be
  equal bytes. All runs with at most n live handlers deliver correctly if and only if n is at most one
  (`PipelineRuns.LiveHandlers`). Without such overtaking, delivery is in order, without duplicates and
  accounted for (`Pipeline.EndToEnd`).
- **Worker threads.** `start_tx` stores the flag before it spawns the thread, `radio_network::start`
  spawns first. A started worker is alive under every schedule exactly in the first order
  (`Lifecycle.OrderDecides`); in the second it is lost by exactly those schedules in which it takes a
  step between the two operations of its start (`Lifecycle.LostExactlyWhen`).
- **Mesh locks.** Check and send share one lock hold, so `network::transmit` never returns its
  not-ready error, and the nested network and queue locks cannot deadlock
  (`MeshLocks.CheckAndSendIsAtomic`, `MeshNetwork.Shared.Transmit`, `MeshLocks.DeadlockFree`). From every
  reachable state a waiting transmitter can still get its frame accepted (`MeshProgress.TransmitCanFinish`).
- **Broadcasters.** The vector of broadcasters holds one shared object, so with k radios a listener
  is called k times per frame (`FanOut.SharedFanOut`): as meant only for one radio.

## Assumptions

- SHA-256 is a collision-free function, the signature check is a Boolean answer that comes with the
  package, CRC-32 is any function of the bytes, and parsing inverts serialising for the three
  protobuf messages.
- Updates: one upload at a time; a handler that is aborted is followed by a restart of the process,
  so `validate_app_file` runs before the next upload. The copies over APP, BACKUP, HASH and VERSION
  may be torn, leaving arbitrary contents; whether HASH writes can is a parameter (`hashAtomic`).
- systemd may start a service that it was last told to start at any moment, and the service may die at
  any moment; the service's unit file is not part of this model.
- rfnet stores one outgoing frame, says whether there is room, refuses a frame when there is none,
  and calls back synchronously from `rfnet_update`. rfnet itself is not part of this model.
- Machine words are little-endian. Mesh frames are shorter than 2^32 bytes.

## Model

| member | source | states |
|---|---|---|
| OtaProtocol.CrashSafety | ota/kaonic-ota.py:32-50 | on any platform, in every state of every run from a committed one in which no restart falls into a HASH write: HASH describes the good image, APP holds it or BACKUP does while HASH tells APP is not it, one recovery pass restores it, and every idle state has it in APP; during a HASH write BACKUP holds it and recovery yields it or the image being committed |
| OtaProtocol.AtomicHashWritesComplete | ota/kaonic-ota.py:151 | with atomic HASH writes no run is cut inside one |
| OtaProtocol.AdvanceKeepsInv | ota/kaonic-ota.py:131-159 | every file operation of install, commit, rollback and recovery, with atomic or torn writes, keeps the invariant on where the good image is and what the service runs |
| OtaProtocol.InterferenceKeepsInv | ota/kaonic-ota.py:218-220 | a restart at any point but inside a HASH write, a dying service and a service restarted by systemd keep the invariant |
| OtaProtocol.RecoveryReachesFixedPoint | ota/kaonic-ota.py:32-50 | on any disk, with or without the metadata directory, a second recovery pass leaves what the first one made unchanged |
| OtaProtocol.RecoveryMatchesHash | ota/kaonic-ota.py:43-50 | on any disk with a HASH, recovery ends with APP matching HASH if and only if APP or BACKUP matched it before |
| OtaProtocol.CommitDiscipline | ota/kaonic-ota.py:117-152 | in every run from an idle state, torn writes and restarts included, the good image changes only to one whose package hash matched, whose signature was verified and which was running at the final status check, with nothing but the HASH write after that check |
| OtaService.RollbackFollowsCheck | ota/kaonic-ota.py:150-159 | in every run, every rollback state follows, with only rollback states between, a final check of this package that found a wanted service stopped |
| OtaService.PollsPrecedeCheck | ota/kaonic-ota.py:142-148 | in every run, the final check comes after the launch of this upload and ten polls that found the service running, or right after a poll that found it stopped, all earlier ones having found it running |
| OtaService.ServiceRunsApp | ota/kaonic-ota.py:117-159 | in every run in which the service does not come up between final check and restored APP, nothing ever runs but what APP holds, restarts and torn copies included |
| OtaService.EndsWithLaunch | ota/kaonic-ota.py:48-50 | every rollback and every recovery ends with the service wanted; after a recovery it is stopped or runs exactly what APP holds |
| OtaService.EarlyStartKeepsRejected | ota/kaonic-ota.py:155-159 | from every committed state, for every acceptable package, some run rolls back and ends committed with the rejected image running |
| OtaService.RunsAppExactly | ota/kaonic-ota.py:155-159 | idle states run nothing but what APP holds in all runs without such an early start, and not in all runs with one |
| OtaProtocol.RollbackRestores | ota/kaonic-ota.py:155-159 | on any platform, in a run without a cut HASH write, a failed final check puts exactly the earlier good image back and changes neither HASH nor VERSION nor BACKUP |
| OtaProtocol.CrashAnywhere | ota/kaonic-ota.py:131-153 | any run cut after any step and continued by a restart is again a run |
| OtaRuns.SafeExactlyWhenCommitted | ota/kaonic-ota.py:43-50 | every idle state of every run has the good image in APP if and only if HASH describes APP at the start and HASH writes are atomic |
| OtaRuns.LosingRun | ota/kaonic-ota.py:203-208 | without a matching HASH one interrupted backup leads, after a full recovery, to a disk that holds the image nowhere |
| OtaRuns.RecoveryRun | ota/kaonic-ota.py:32-50 | from any state and disk, the steps of a restart and an uninterrupted recovery, on every branch, add up to the recovery function |
| OtaRuns.TornHashLosesImage | ota/kaonic-ota.py:151 | if the HASH write can be torn, from every committed state some run loses the good image although nothing else was committed |
| OtaVersion.VersionAtRest | ota/kaonic-ota.py:150-153 | in every run, VERSION belongs to the package committed last (or is the initial one) unless a restart fell between or into the HASH and VERSION writes of that commit; after a restart before the VERSION write it is what it was before, hence right if and only if the versions are equal |
| OtaVersion.VersionCanLag | ota/kaonic-ota.py:151-152 | from every committed state, for every acceptable package, a restart before the VERSION write commits the image and leaves the old version |
| OtaVersion.VersionCanBeAnything | ota/kaonic-ota.py:152 | from every committed state, for every acceptable package and every text, a restart inside the VERSION write commits the image and leaves that text as its version |
| OtaVersion.VersionExactly | ota/kaonic-ota.py:151-152 | of the three places of the last restart (no cut, before the VERSION write, inside it) exactly no cut guarantees that the version of the committed image is reported |
| OtaDaemon.Daemon.UploadOta | ota/kaonic-ota.py:117-159 | the complete disk after each of the four outcomes, which packages are refused, and that a committed state stays committed; an accepted package is launched and answered Updated exactly when the deciding status check finds the new image running, RolledBack exactly when it finds it stopped; after a rollback the service is wanted again and runs nothing but the restored APP unless it came up early |
| OtaDaemon.Daemon.ValidateAppFile | ota/kaonic-ota.py:32-50 | exactly when metadata exists, APP or BACKUP exists and APP is not what HASH says, BACKUP is back in APP and the service has been stopped and started with it; otherwise neither file nor service is touched; agrees with the recovery function |
| OtaDaemon.Daemon.BackupCurrent | ota/kaonic-ota.py:203-208 | BACKUP ends equal to APP, or absent when APP is |
| OtaDaemon.Daemon.RestoreBackup | ota/kaonic-ota.py:210-216 | APP becomes BACKUP if there is one and stays as it was otherwise |
| OtaDaemon.Daemon.PollService | ota/kaonic-ota.py:142-148 | the polls end before the final check whatever they see, and touch no file |
| OtaDaemon.Daemon.Sha256Sum | ota/kaonic-ota.py:170-175 | reading in chunks of 4096 bytes digests the whole file |
| OtaDaemon.Daemon.StopKaonicCommd | ota/kaonic-ota.py:177-184 | the service is stopped and no file is touched |
| OtaDaemon.Daemon.LaunchKaonicCommd | ota/kaonic-ota.py:194-201 | starting touches no file and leaves a running service alone; a stopped one runs what APP holds if the start succeeds; the service is wanted either way |
| OtaDaemon.Daemon.GetVersion | ota/kaonic-ota.py:161-168 | no answer exactly when a file is missing; in a committed state the digest is that of the image in APP, and the version is that of the package committed last unless a restart cut that commit |
| OtaDaemon.PowerLoss | ota/kaonic-ota.py:218-220 | after a power loss behind any logged operation of any method, except inside a HASH write, a new process started on that disk ends committed with the image that was good at that moment, and may itself be cut again |
| Pipeline.DeliveryInEveryRun | kaonic/src/comm/services/grpc_service.cpp:158-171 | in every run, overtaking or not, each client gets for its k-th written pop the frame popped last by anyone before the copy, never older than its own and never going back; it is right if and only if those two frames are equal bytes |
| Pipeline.EndToEnd | kaonic/src/comm/services/grpc_service.cpp:141-200 | without overtaking, every client decodes an order-preserving, duplicate-free subsequence of the arrivals, no two clients get the same arrival, and all arrivals are accounted for |
| PipelineRuns.SingleStreamCount | kaonic/src/comm/services/grpc_service.cpp:158-171 | with one stream, popped frames are the delivered ones plus at most one in flight or lost to a failed write |
| PipelineRuns.SingleStreamIsCalm | kaonic/src/comm/services/grpc_service.cpp:158-164 | at most one live handler at a time never overtakes |
| PipelineRuns.TurnDelivers | kaonic/src/comm/services/grpc_service.cpp:158-171 | one turn of a handler from any reachable state under any schedule: the client gets the frame popped last before the copy, which is the handler's own if and only if nobody pops between its pop and its copy |
| PipelineRuns.FailedTurnDeliversNothing | kaonic/src/comm/services/grpc_service.cpp:168-170 | a failed write sends nothing and ends the stream, under any schedule |
| PipelineRuns.LiveHandlers | kaonic/src/comm/services/grpc_service.cpp:141-176 | all runs with at most n live handlers deliver to every client its own pops if and only if n is at most one |
| PipelineRuns.OvertakingCorrupts | kaonic/src/comm/services/grpc_service.cpp:160-166 | from every reachable state in which one handler still has to copy, another waits and a frame is queued, both can be sent the later frame; in that continuation the first is right if and only if the bytes are equal |
| PipelineRuns.TwoStreamsFail | kaonic/src/comm/services/grpc_service.cpp:160-166 | two streams and two arrivals: one frame reaches both clients and the other none |
| Pipeline.StepKeepsInv | kaonic/src/comm/services/grpc_service.cpp:158-200 | every step, overtaking or not, keeps the queue, delivery and counting invariants for any number of streams |
| Pipeline.StepKeepsFaithful | kaonic/src/comm/services/grpc_service.cpp:158-200 | every step that overtakes nobody keeps all copies those of the handlers' own frames |
| Pipeline.QueueInvInEveryRun | kaonic/src/comm/services/grpc_service.cpp:178-200 | in every run, overtaking or not, the queue is a suffix of all pushed frames, at most 64 long, and pushed = popped + evicted + queued |
| Pipeline.EvictionDistance | kaonic/src/comm/services/grpc_service.cpp:181-186 | a push keeps the last 64 frames: one is evicted exactly by a push that finds 64 queued, which is the push 64 places after its own, and nobody has popped it |
| GrpcService.Service.ReceiveFrame | kaonic/src/comm/services/grpc_service.cpp:178-187 | appends the frame, dropping the oldest of 64; performs exactly the push step of the pipeline |
| GrpcService.Service.PopFrame | kaonic/src/comm/services/grpc_service.cpp:189-200 | succeeds if and only if a frame is queued, then moves the oldest one into the shared frame; performs exactly the pop or the timeout step |
| GrpcService.Service.ReceiveStream | kaonic/src/comm/services/grpc_service.cpp:141-176 | for the only client, with frames arriving at any moment: each turn asks the queue once, every frame taken is written but one whose write fails, the responses decode to arrivals in order, each once, and the stream is aborted exactly by a failed write |
| Packing.BufPack | kaonic/src/comm/services/grpc_service.cpp:14-19 | byte k is byte k mod 4 of word k/4, least significant first, and zero behind the words, for every length; the buffer's old contents do not show |
| Packing.BufUnpack | kaonic/src/comm/services/grpc_service.cpp:21-30 | each word is the little-endian value of its four bytes; a frame that ends inside the last word leaves the high bytes of the used message there |
| Packing.PackedByte | kaonic/src/comm/services/grpc_service.cpp:14-19 | the value of every byte that a client reads |
| Packing.UnpackedWord | kaonic/src/comm/services/grpc_service.cpp:21-27 | the value of a word filled from the frame, whatever the message held |
| Packing.UnpackedLastWord | kaonic/src/comm/services/grpc_service.cpp:21-27 | the value of a last word filled in part, with the stale high bytes |
| Packing.PackUnpack | kaonic/src/comm/services/serial_service.cpp:18-34 | whatever the message held, the client reads back the bytes sent if and only if there are fewer than 2^32 |
| Packing.PadBytesAreStale | kaonic/src/comm/services/grpc_service.cpp:24-27 | the pad bytes of the last word are those the message held before, zero where it was shorter |
| Packing.UnpackedDependsOnPadOnly | kaonic/src/comm/services/grpc_service.cpp:24-27 | two histories give different words if and only if their pad bytes differ |
| Packing.PackUnpackPack | kaonic/src/comm/services/grpc_service.cpp:129-131 | forwarding any message through pack, unpack and pack equals packing it once, even when length and words disagree |
| Packing.ImageOfWords | kaonic/src/comm/services/grpc_service.cpp:17 | reading words out of memory and storing them back gives the same bytes |
| Packing.WordsOfImage | kaonic/src/comm/services/grpc_service.cpp:27 | storing words and reading them back gives the same words |
| Hdlc.CodesAreMasked | kaonic/include/kaonic/comm/serial/hdlc.hpp:15-17 | the two escape codes are the special bytes XOR the mask |
| Hdlc.Escape | kaonic/src/comm/serial/hdlc.cpp:5-23 | the loop computes the stuffed frame of the inverse theory |
| Hdlc.Unescape | kaonic/src/comm/serial/hdlc.cpp:25-53 | the loop with its two flags computes the decoder automaton of the inverse theory |
| Hdlc.UnescapeEscape | kaonic/src/comm/serial/hdlc.cpp:5-53 | decoding inverts encoding behind any flag-free prefix and before any suffix |
| Hdlc.EscapePrefixFree | kaonic/src/comm/serial/hdlc.cpp:5-23 | escape is injective and no encoded frame is a proper prefix of another |
| Hdlc.EscapeUnescape | kaonic/src/comm/serial/hdlc.cpp:5-53 | re-encoding a decoded string gives it back if and only if it is flag-delimited with a flag-free body in which every 0x7D is followed by 0x5D or 0x5E |
| Hdlc.UnescapedIsMeaning | kaonic/src/comm/serial/hdlc.cpp:30-52 | every byte string, canonical or not, decodes to its first body without the 0x7D bytes, a byte right behind one being restored |
| Hdlc.EscapedSize | kaonic/src/comm/serial/hdlc.cpp:8-22 | a frame is two bytes plus one per special byte longer than its data, at most twice the data plus two |
| Hdlc.SafePacketSize | kaonic/src/comm/services/serial_service.cpp:16 | packets of up to n bytes always fit the limit of 10240 if and only if n is at most 5119 |
| Deframer.HdlcProcessor.Update | kaonic/src/comm/serial/hdlc.cpp:58-81 | outside a frame exactly 0x7E completes, at once and alone, and other bytes are ignored; inside one every byte is stored and 0x7E completes, unless the buffer is full, which discards it |
| Deframer.HdlcProcessor.UpdateIntended | kaonic/src/comm/serial/hdlc.cpp:65-74 | the correction: outside a frame 0x7E opens it and is stored, without completing it |
| Packet.Encode | kaonic/src/comm/serial/packet.cpp:77-115 | the wire format of each variant: 22 00, the type 1, 2, 3 or 0 as 16-bit little-endian, the 16 reserved bytes whatever they hold, the message |
| Packet.Decode | kaonic/src/comm/serial/packet.cpp:22-75 | for every buffer: fewer than 20 bytes or any other first four bytes give error_payload, otherwise the parse of the rest under the type named, or error_payload |
| Packet.DecodeEncode | kaonic/src/comm/serial/packet.cpp:16-115 | every payload variant survives encode and decode for every content of the uninitialised reserved bytes |
| Packet.StackRoundTrip | kaonic/src/comm/serial/packet.cpp:16-115 | every payload variant, error_payload included, survives encode, escape, unescape and decode |
| Packet.FrameRoundTrip | tests/hdlc/src/main.cpp:41-169 | in both directions, transmit request and receive response, a radio frame packed into a used message crosses the whole stack unchanged, with the fields beside it, for all frames |
| Packet.RadioFramesFit | kaonic/include/kaonic/comm/radio/radio.hpp:10-17 | every frame of at most 2048 bytes, with its varint encoding, fits the deframer in both message kinds |
| SerialPump.AsWrittenIsInert | kaonic/src/comm/services/serial_service.cpp:76-117 | for every behaviour of the line the deframer is out of frame between bytes, holds nothing or one flag, and only error_payload is decoded |
| SerialPump.AsWrittenOutput | kaonic/src/comm/services/serial_service.cpp:81-116 | for every script: a timed-out read repeats the previous byte, each flag asks for one checksum read, and exactly those that deliver the checksum of a lone flag give one error_payload each |
| SerialPump.AsWrittenLine | kaonic/src/comm/services/serial_service.cpp:81-116 | the same for a plain stream of bytes, where each flag swallows the next four bytes |
| SerialPump.TimeoutRepeatsByte | kaonic/src/comm/services/serial_service.cpp:82-93 | as written, a byte read that delivers nothing does what reading the previous byte again does |
| SerialPump.TimeoutRepeatsFlag | kaonic/src/comm/services/serial_service.cpp:82-98 | as written, a timeout after a flag and its checksum asks for another checksum |
| SerialPump.FrameCompletes | kaonic/src/comm/serial/hdlc.cpp:58-81 | corrected: a frame reaches the checksum exactly when it fits; one byte too long it vanishes, longer it leaves the deframer inside a bogus frame |
| SerialPump.PacketDecodedExactly | kaonic/src/comm/services/serial_service.cpp:93-115 | corrected: a packet is decoded if and only if the checksum read delivers four bytes whose little-endian value is the checksum of the stuffed packet |
| SerialPump.Reassembly | kaonic/src/comm/services/serial_service.cpp:76-117 | corrected: for any mix of timeouts, flag-free noise, fitting packets and arbitrary checksum reads, exactly the packets whose checksum matches are decoded, in order |
| SerialPump.LineReassembly | kaonic/src/comm/services/serial_service.cpp:76-117 | corrected: the same for a plain stream of bytes, where the loop itself finds the ends of frames and checksums, also when checksum bytes are 0x7E |
| SerialPump.TimeoutsAreInvisible | kaonic/src/comm/services/serial_service.cpp:89-91 | corrected: a timeout anywhere before a byte changes nothing |
| SerialPump.PayloadsDelivered | kaonic/src/comm/services/serial_service.cpp:93-115 | corrected: running the loop over what a sender writes, read by read or as one byte stream, hands on exactly the sender's payloads in order |
| SerialService.Service.Tx | kaonic/src/comm/services/serial_service.cpp:76-120 | the loop as written performs the run of the pump for every script of reads, and calls the radio exactly for what it decodes |
| SerialService.Service.TxIntended | kaonic/src/comm/services/serial_service.cpp:76-120 | the same for the corrected loop |
| SerialService.Service.HandlePacket | kaonic/src/comm/services/serial_service.cpp:122-152 | a configuration makes one call with frequency, narrowed channel and spacing, a transmit request one with the packed frame, a receive response and error_payload none |
| SerialService.AsWrittenNeverReachesTheRadio | kaonic/src/comm/services/serial_service.cpp:122-152 | as written, no serial input leads to a configure or transmit call |
| SerialService.IntendedTransmits | kaonic/src/comm/services/serial_service.cpp:139-141 | corrected: an accepted transmit packet makes exactly one radio call, with the sender's bytes |
| SerialService.IntendedCalls | kaonic/src/comm/services/serial_service.cpp:93-152 | corrected: for every payload variant and every checksum read, the exact radio calls that one packet leads to |
| SerialService.Service.ReceiveFrame | kaonic/src/comm/services/serial_service.cpp:169-180 | the bytes written are the unstuffed packet of a receive response for module 0 that decodes to the frame, whatever the reused response held |
| SerialService.OutboundIsUnframed | kaonic/src/comm/services/serial_service.cpp:173-176 | a framing receiver ignores a packet without flags; stuffed and with its checksum it would get the payload |
| Lifecycle.OrderDecides | kaonic/src/comm/mesh/radio_network.cpp:76-85 | in every run a started service has a running worker, if and only if the flag is stored before the thread is spawned |
| Lifecycle.LostExactlyWhen | kaonic/src/comm/mesh/radio_network.cpp:76-85 | after a start, however the run goes on until the next stop, the worker has exited if and only if it took a step between the start's two operations |
| Lifecycle.FindLastStart | kaonic/src/comm/mesh/radio_network.cpp:76-85 | every run that ends started and idle has such a last start, so the schedules are all covered |
| Lifecycle.WorkerLiveness | kaonic/src/comm/services/serial_service.cpp:64-74 | in every interleaving: store-first keeps the worker alive while the flag is set, and in both orders an idle controller sees flag and joinable thread agree and no thread is overwritten |
| Lifecycle.SpawnFirstCanLoseWorker | kaonic/src/comm/mesh/radio_network.cpp:76-85 | a run of the spawn-first order that ends started, with the worker exited |
| Lifecycle.StopAlwaysReturns | kaonic/src/comm/mesh/radio_network.cpp:87-99 | after stop clears the flag the worker exits in at most two steps, and join returns only then |
| Lifecycle.Worker.StartTx | kaonic/src/comm/services/serial_service.cpp:64-74 | refuses exactly when running; returns with flag set and worker alive |
| Lifecycle.Worker.Start | kaonic/src/comm/mesh/radio_network.cpp:76-85 | refuses exactly when running; otherwise its steps are those of a start with a number of early and late worker steps, and the worker has exited exactly if there is an early one |
| Lifecycle.Worker.Stop | kaonic/src/comm/services/serial_service.cpp:154-167 | refuses exactly when not running; returns with flag clear and no thread, whether or not the worker had died |
| Lifecycle.Worker.WorkerStep | kaonic/src/comm/mesh/radio_network.cpp:109-124 | the worker alternates flag test and round, and leaves at a cleared flag |
| MeshLocks.CheckAndSendIsAtomic | kaonic/src/comm/mesh/network.cpp:63-84 | in every run, with any number of networks and threads, each send shares the lock hold of its successful check, none is refused, and accepted = drained + stored frame |
| MeshNetwork.Shared.Transmit | kaonic/src/comm/mesh/network.cpp:69-84 | with all other threads running between any two statements, transmit never returns not-ready; when it returns, the frame is the stored one and the last accepted, and the lock is free; it is still waiting only while somebody holds the network's lock |
| MeshNetwork.Shared.AwaitRoom | kaonic/src/comm/mesh/network.cpp:72-76 | the wait loop ends in the lock hold whose check found room |
| MeshNetwork.Shared.SendLocked | kaonic/src/comm/mesh/network.cpp:78-83 | the send is accepted and stores exactly this frame |
| MeshNetwork.Shared.Update | kaonic/src/comm/mesh/network.cpp:63-67 | update pushes the received frames into the gRPC queue in order, each once (a prefix of them if it is still waiting when the execution is left), whatever the other threads do, and returns with the lock free |
| MeshNetwork.Shared.HandOn | kaonic/src/comm/mesh/network.cpp:182-193 | a received frame is pushed once and ends at the back of the gRPC queue, with the network's lock still held |
| MeshLocks.StepKeepsInv | kaonic/src/comm/mesh/network.cpp:63-84 | every step keeps lock ownership and thread positions consistent |
| MeshLocks.DeadlockFree | kaonic/src/comm/mesh/network.cpp:182-192 | in every reachable state a queue lock holder can step, a blocked thread has a lock holder that can step, and some thread can always step |
| MeshLocks.StepsUnlessBlocked | kaonic/src/comm/services/grpc_service.cpp:189-194 | a thread can step if and only if it does not stand at a lock held by another one |
| MeshLocks.WaitersHoldNothing | kaonic/src/comm/mesh/network.cpp:72-76 | in every run, a thread outside, at a lock or asleep between two checks holds no lock it waits for, so the updater can get in |
| MeshLocks.QueueChanges | kaonic/src/comm/services/grpc_service.cpp:178-200 | only pushes and takes change the queue, a push keeping the last 64 frames and a take dropping the first |
| MeshProgress.TransmitCanFinish | kaonic/src/comm/mesh/network.cpp:63-84 | in every reachable state, a transmitter waiting for a network that has an updater has a continuation in which its frame is accepted and its call returns |
| MeshProgress.LockComesFree | kaonic/src/comm/mesh/network.cpp:63-84 | from every reachable state every network's lock can come free while those that wait for it stay where they are |
| FanOut.SharedFanOut | kaonic/src/comm/services/radio_service.cpp:11-33 | the service as written calls a listener attached once exactly k times per frame with k radios |
| FanOut.DistinctFanOut | kaonic/src/comm/services/radio_service.cpp:53-60 | with a broadcaster of its own per radio it is called exactly once, for all k |
| FanOut.OncePerRadio | kaonic/src/comm/services/radio_service.cpp:53-60 | one attach serves every radio exactly once if and only if the slots are pairwise different objects |
| FanOut.SharedSlotCounts | kaonic/src/comm/services/radio_service.cpp:14 | a vector filled with one object counts its full length for every slot |
| FanOut.RadioService.constructor | kaonic/src/comm/services/radio_service.cpp:11-33 | all slots hold the same object; networks get the ids 1 to k |
| FanOut.RadioService.AttachListener | kaonic/src/comm/services/radio_service.cpp:53-60 | every object gets one entry for each slot it fills, and a null listener is ignored |
| FanOut.Broadcaster.AttachListener | kaonic/src/comm/mesh/network_receiver.cpp:7-12 | appends a non-null listener |
| FanOut.Broadcaster.OnReceive | kaonic/src/comm/mesh/network_receiver.cpp:14-25 | every live listener is called once per entry it has, an expired one never |

## Left out

- Flask routing, the form and zip checks before the hash check, HTTP texts, file modes and time stamps.
- Concurrent uploads, and handler exceptions that are not followed by a restart of the process.
- Blanks around the digest and version texts: the model takes the texts as stripped.
- SPI, GPIO, termios, `select`, `read` and `write`, and the radio chip: calls without visible semantics.
- The internals of rfnet, protobuf, gRPC, zlib, SHA-256 and the signature algorithms: functions or contracts here.
- `Configure` of the gRPC service, register tables, node ids: bounded facts about constants.
- Serial ports that reorder or lose bytes: a read script says what arrived, and a write takes a prefix of what it is given.
- MeshNetwork.Shared.Transmit: follows an execution for a bounded number of waits, because how long a thread waits for a lock or for room depends on the others; it says nothing about fairness.
- `net_frame` and the fixed-size radio buffers: copies between buffers, all made under the network's lock.
- Torn reads of `_rx_frame` during a copy by another thread: the steps of `Pipeline` copy a whole frame, which is already enough for wrong delivery.
- Several controllers calling start or stop of the same worker at the same time.
- Pipeline.EndToEnd: requires that no handler overtakes another, because the shared `_rx_frame` makes delivery wrong otherwise; `Pipeline.DeliveryInEveryRun` says what is delivered then, and `PipelineRuns.LiveHandlers` which number of handlers is safe.
- GrpcService.Service.ReceiveStream: is about one client at a time, for the same reason.
- OtaProtocol.CrashSafety: requires a committed start and that no restart falls into a HASH write, because the image can be lost otherwise; `OtaRuns.SafeExactlyWhenCommitted` shows it.
- OtaProtocol.RollbackRestores: has the same two conditions, for the same reason.
- OtaDaemon.PowerLoss: does not cover a power loss inside a HASH write that is not atomic, for the same reason.
- OtaVersion.VersionAtRest: says nothing about the text that a restart inside the VERSION write leaves, because `OtaVersion.VersionCanBeAnything` shows that it is arbitrary.
- SerialPump.Reassembly: is about the corrected deframer and loop, because as written no packet is ever reassembled; `SerialPump.AsWrittenIsInert` says so.
