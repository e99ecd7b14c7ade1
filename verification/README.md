# Device farm: verified models

Dafny models of the parts of a mobile device farm whose behaviour is hard to see from the
code: the H.264 layer and the live frame cache, the claim protocol between coordinator and
provider, the recording compiler and the locator engine, and four smaller concurrent
pieces. `dafny verify dfyconfig.toml` checks everything.

| file | subject |
|---|---|
| `AnnexB.dfy`, `AccessUnit.dfy` | start-code splitting, length-prefixed units, parameter-set extraction |
| `BitReader.dfy`, `Emulation.dfy` | bit reader, Exp-Golomb codes, emulation prevention |
| `SpsParser.dfy`, `SpsSyntax.dfy`, `SpsCut.dfy` | the SPS walk, the SPS syntax and picture size of ITU-T H.264 it is measured against, and parameter sets cut short |
| `FrameCache.dfy` | repair of key frames, the cache since the last key frame, fan-out to clients |
| `PortAllocator.dfy`, `DeviceSupervisor.dfy`, `ProviderDaemon.dfy` | the port pool, the per-device state machine, and the provider with all its devices |
| `SessionTables.dfy`, `ClaimProtocol.dfy` | device and session tables; claims and releases as interleaved steps |
| `ClaimOutcomes.dfy` | how single claims and releases end, and that failed claims were rolled back |
| `ClaimSafety.dfy`, `ClaimCleanup.dfy`, `LateClaims.dfy` | when two claims are separated; what releases, rollbacks and claims given up on leave behind |
| `Simulation.dfy` | the provider's devices as runs of the per-device state machine |
| `Compiler.dfy` | recorded events to script steps, and the step optimizer |
| `UiTree.dfy`, `XPath.dfy`, `Searches.dfy`, `HitTest.dfy`, `Resolver.dfy`, `Locators.dfy` | UI trees, XPaths, tap targets, element matching, locators |
| `Tracker.dfy`, `Scheduler.dfy`, `Agent.dfy` | snapshot differ and registry, parallel runs, request/response table |

How things are modelled:

- Objects that change their fields are classes whose methods are proved against functions
  on values; concurrent code is a state machine whose steps are the locked sections,
  transactions and messages of the source, and the theorems range over every sequence of
  steps. A step that is not possible in a state leaves it unchanged.
- Bytes and bits are bounded integers. Go's 64-bit `uint` and `int`, the `uint16` results of
  the SPS walk, the `uint32` length prefix and the `int32` screen area wrap explicitly; other
  integers do not overflow here. Coordinates are `real`; the area ratios are compared by
  cross-multiplication, so float rounding is not modelled.
- `sort.Slice` is not stable; taking its first element is an arbitrary choice among the
  least elements.
- The claim protocol treats the provider's lookup and claim as one step. A supervisor's
  `Run` asks for its port in a step of its own, so a claim may come before it.
- `fmt.Sscanf` in `EvaluateXPath` is a parameter.

What the proofs found about the source:

- `annexBSplit` loses the last 00 of a unit in front of a 3-byte start code, and only then
  (`AnnexB.SplitJoin`). A repaired key frame therefore always has the saved SPS, but has the
  saved PPS only under the condition of `FrameCache.PrependedPpsExact`, and a parameter set
  sent in front of a frame is found whole only under that of `SpsSyntax.NalTravels`.
- `readUE` never returns when no 1 bit is left, so on a truncated SPS `parseSPS` may never
  end, and may also end with a wrong size. `SpsCut.CutExact` says for every cut which it
  is: the walk ends exactly if the height code still has its leading 1 and, if the crop
  flag is there and set, the last crop code too; what is cut off reads as 0. The methods
  require that the walk ends.
- The profile list of `parseSPS` has 144 and lacks 134 and 135 (`SpsSyntax.ProfilesRead`), and
  its crop units are fixed at 2; `SpsSyntax.ParseExact` says exactly when the size is right.
- A supervisor that gets no port stays claimable, but nothing is torn down when its device
  disconnects, so its capture is left over and the next claim resumes it without any
  release in between (`ClaimSafety.OneTooMany`). Claims are separated in every run exactly
  as long as there is a block of ports for every supervised device
  (`ClaimSafety.EnoughPortsExact`); a release of an idle device does not end a left-over
  capture (`ClaimCleanup.ReleaseCleansUp`).
- "At most one active session row" does not hold (`ClaimCleanup.SecondActiveRow`); a new
  claim keeps it exactly when the device has no active row (`SessionTables.CreateAddsSession`).
- The rollback of a failed claim closes the rows of all claims of the device, also that of
  the holder (`ClaimCleanup.RollbackClosesHolder`, `ClaimCleanup.RowKeptExact`).
- A claim the coordinator gave up on can still arrive: it ends as failed without a session
  while the provider holds the device (`LateClaims.HeldWithoutSession`), and later claims
  fail until the device is released or torn down (`LateClaims.LaterClaimsFail`).
- The comment that ports spaced by ten never overlap holds exactly for port ranges narrower
  than 1000 (`PortAllocator.DerivedPortsDistinct`).
- `EvaluateXPath` slices out of range when an indexed walk reaches the part
  `node[@index=']`, and on a search whose first bracket is its last character, and only
  then (`XPath.PanicsExact`); quotes in an index do no harm to the round trip, slashes do
  (`XPath.RoundTrip`).
- With an anchor, a text or description locator can find a node that does not carry it
  (`Locators.AnchoredExact`), even when another node does (`Locators.CarrierFoundExact`).
- A class locator without anchor can find a node of another class, if that has no bounds
  (`Locators.ClassExact`).
- The container list of `ScoreActionableNode` names the plain view, so that the penalty of
  120 for it is never charged (`HitTest.ClassPointsExact`).
- A lost tracking connection leaves devices registered that were not in state `device`
  (`Tracker.EvictLeavesUnready`).

## Model

| member | source | states |
|---|---|---|
| `AnnexB.AnnexBSplit` | internal/stream/h264.go:25-57 | the one-pass splitter yields the non-empty bodies of the reference reading of the bytes as leading bytes, start codes and bodies |
| `AnnexB.Rebuild` | internal/stream/h264.go:25-57 | on arbitrary bytes, leading bytes, start codes and bodies concatenate to the input; leading bytes and bodies hold no start code; a body ending in 00 is followed by a 4-byte code |
| `AnnexB.UnitsClean` | internal/stream/h264.go:23-25 | every emitted unit is non-empty and holds no 00 00 01 |
| `AnnexB.SplitJoin` | internal/stream/h264.go:25-57 | joining units with any mix of start codes and splitting gives them back if and only if each is non-empty, holds no start code, and does not end in 00 before a 3-byte code |
| `AccessUnit.Uint32RoundTrip` | internal/stream/h264.go:60-65 | the 4-byte big-endian prefix reads back as the length modulo 2^32 |
| `AccessUnit.AvccRoundTrip` | internal/stream/h264.go:60-65 | a reader of the length-prefixed form gets the wrapped units back if and only if every length is below 2^32 |
| `AccessUnit.FrameToAVCC` | internal/stream/h264.go:69-84 | the loop produces the length-prefixed form of the kept units, in order, and a reader gets exactly these back if and only if no kept length overflows 32 bits |
| `AccessUnit.KeptExact` | internal/stream/h264.go:76-81 | a unit is kept if and only if it is a non-empty unit of the frame other than SPS, PPS, SEI and AUD |
| `AccessUnit.FrameRoundTrip` | internal/stream/h264.go:69-84 | units joined by any start codes, converted and read from the length-prefixed form, come out in order without SPS, PPS, SEI and AUD |
| `AccessUnit.FirstOfType` | internal/stream/h264.go:88-101 | nothing exactly when no unit has the type; otherwise a non-empty unit of that type from the list |
| `AccessUnit.ExtractSPSPPS` | internal/stream/h264.go:87-104 | the loop returns the first SPS and the first PPS of the buffer |
| `AccessUnit.ParameterSetsExact` | internal/stream/h264.go:87-104 | the parameter sets of a frame are its first units of types 7 and 8, missing only if there is no such unit |
| `AccessUnit.IsKeyFrame` | internal/stream/stream.go:462-472 | true if and only if some unit is an IDR slice, an SPS or a PPS |
| `BitReader.Reader.ReadBit` | internal/stream/h264.go:123-134 | returns the next bit and moves past it; past the end returns 0 and stays |
| `BitReader.Reader.ReadBits` | internal/stream/h264.go:137-143 | returns the next n bits as a number modulo 2^64 and moves past them |
| `BitReader.Reader.ReadUE` | internal/stream/h264.go:146-156 | with a 1 bit ahead, returns the Exp-Golomb code number modulo 2^64 and moves past the code |
| `BitReader.Reader.ReadSE` | internal/stream/h264.go:159-165 | returns the signed value of the code and moves past it |
| `BitReader.UERoundTrip` | internal/stream/h264.go:146-156 | in front of any bits, reading the section 9.1 code of v gives v modulo 2^64 and exactly the bits behind the code |
| `BitReader.SERoundTrip` | internal/stream/h264.go:159-165 | reading the section 9.1.1 code of v stops just behind it and gives v if and only if -2^63 < v < 2^63 |
| `BitReader.BitsOfPack` | internal/stream/h264.go:116-134 | packing bits into bytes and reading the bytes bit by bit gives the bits back |
| `Emulation.StripEmulation` | internal/stream/h264.go:170-178 | the loop leaves the bytes without the 03 of each 00 00 03 |
| `Emulation.StripInsert` | internal/stream/h264.go:169-178 | stripping undoes the insertion of section 7.3.1 on every byte string |
| `Emulation.InsertCodeFree` | internal/stream/h264.go:169-178 | an escaped unit holds no start code, so the splitter keeps it whole |
| `SpsParser.ParseSPS` | internal/stream/h264.go:168-275 | the whole walk over the mutable reader computes the functional walk, wherever that ends |
| `SpsParser.ReadScalingList` | internal/stream/h264.go:210-224 | the list loop reads a delta only while the next scale is not 0, with Go's wrap-around and remainder |
| `SpsParser.ReadScalingLists` | internal/stream/h264.go:207-226 | the loop over presence flags reads lists of 16, from the seventh on of 64 entries |
| `SpsParser.ReadChroma` | internal/stream/h264.go:192-227 | the chroma fields, with 8 or 12 scaling lists |
| `SpsParser.ReadPicOrderCnt` | internal/stream/h264.go:231-242 | the picture order count fields of each type |
| `SpsParser.ReadGeometry` | internal/stream/h264.go:246-261 | size, field flag and cropping fields |
| `SpsSyntax.ParsePrinted` | internal/stream/h264.go:168-275 | for every well-formed SPS of an agreed profile, printing it by section 7.3.2.1.1, packing and escaping it and then parsing ends with the coded size modulo 2^16 |
| `SpsSyntax.ParseExact` | internal/stream/h264.go:263-274 | the result is the size of section 7.4.2.1.1 if and only if that size fits 16 bits and, along each axis, the crop unit is 2 or the crop sum contributes 0 modulo 2^16 |
| `SpsSyntax.ProfilesRead` | internal/stream/h264.go:189-191 | every uncropped picture of a profile that fits 16 bits is read right if and only if the profile is not 134, 135 or 144 |
| `SpsSyntax.Misread` | internal/stream/h264.go:189-191 | for these three profiles, one bit string that is two different pictures with and without chroma fields |
| `SpsSyntax.NalTravels` | internal/stream/h264.go:87-104 | a printed SPS sent as first unit of a frame, with any bytes behind it, is the SPS that extraction finds if and only if nothing follows, or a 4-byte start code, or a 3-byte one and the last byte before escaping is not 00 |
| `SpsSyntax.ProperNalTravels` | internal/stream/h264.go:87-104 | a printed SPS with a 1 among its last eight bits is found if and only if nothing or some start code follows |
| `SpsCut.TakeCut` | internal/stream/h264.go:146-156 | when the last bits of a code and of what follows are cut off, reading it ends if and only if its leading 1 is left, and then gives its value with the bits cut off as 0 |
| `SpsCut.CutBeforeGeometry` | internal/stream/h264.go:186-244 | on a cut body the walk reaches the size where it would on the whole body if bits are left there, and otherwise never ends or is at the end of the bits |
| `SpsCut.CutExact` | internal/stream/h264.go:124-126 | for every cut of every well-formed body of an agreed profile, the walk ends if and only if the height code has its leading 1 and, if the crop flag is left and set, so has the last crop code; then the size is that of the parameter set with the bits cut off as 0 |
| `SpsCut.CutNalExact` | internal/stream/h264.go:168-184 | the same for every cut of the escaped NAL unit, with 0 by 0 below five bytes |
| `SpsCut.CutTwin` | internal/stream/h264.go:246-274 | a 16 by 48 picture cut to two body bytes is read as 16 by 96 |
| `FrameCache.PrependedPpsExact` | internal/stream/stream.go:434-443 | the PPS of a repaired frame is the saved one if and only if the frame starts with a start code that cannot take the PPS's trailing 00 |
| `FrameCache.RepairedFacts` | internal/stream/stream.go:434-443 | repair keeps whether a frame is a key frame and gives every key frame both parameter sets and the saved SPS |
| `FrameCache.StepInv` | internal/stream/stream.go:107-125 | every locked step (frame, join, leave, read) keeps cache, log, parameter sets and client views consistent |
| `FrameCache.RunInv` | internal/stream/stream.go:373-459 | the same over every interleaving |
| `FrameCache.EveryFrameLogged` | internal/stream/stream.go:407-457 | from the arrivals alone: in every run the log has one frame for each non-empty arrival from the first with both parameter sets on, in order; it is the arriving bytes, or for a key frame lacking a set 00 00 00 01, the latest SPS, 00 00 00 01, the latest PPS and all the arriving bytes |
| `FrameCache.ChannelsServed` | internal/stream/stream.go:451-456 | a broadcast frame goes to the end of every channel that is not full and to no other; a read takes the oldest; leaving ends both |
| `FrameCache.JoinGetsCache` | internal/stream/stream.go:107-118 | a client that joins starts with the cache and an empty channel |
| `FrameCache.RoomyChannelLosesNothing` | internal/stream/stream.go:451-456 | in every run a channel refuses frames only after as many as it holds were accepted; one with room for all frames since the join loses none |
| `FrameCache.CacheIsLogFromLastKey` | internal/stream/stream.go:445-450 | in every run the cache is the broadcast log from its last key frame on, empty only with the log |
| `FrameCache.ClientSeesLogFromKey` | internal/stream/stream.go:107-118 | in every run a client's cached, received and queued frames are frames of the log in order, each once, the first being the key frame it started at; from there on every frame of the log is either seen or was refused by its full channel, not both; without refusals it has seen exactly the log from there |
| `FrameCache.FirstFrameDecodes` | internal/stream/stream.go:107-118 | in every run the first frame a client sees is a key frame with SPS and PPS, overflow or not |
| `FrameCache.KeyFramesSelfContained` | internal/stream/stream.go:407-450 | in every run every logged key frame carries both parameter sets, and the newest one, which heads the cache, the saved SPS |
| `FrameCache.CachedPpsExact` | internal/stream/stream.go:434-450 | in every run the key frame that heads the cache carries the saved PPS if and only if it came with both parameter sets or began with a start code that cannot take a trailing 00 of the PPS |
| `FrameCache.LongCodesKeepPps` | internal/stream/stream.go:434-450 | in every run whose frames all begin with a 4-byte code the cached key frame carries the saved PPS |
| `FrameCache.StreamState.HandleFrame` | internal/stream/stream.go:407-457 | one iteration of the loop takes exactly the frame step, and the stored video size is that of the saved SPS |
| `FrameCache.StreamState.AddClientAndGetCache` | internal/stream/stream.go:107-118 | takes the join step and returns the frames the client starts with |
| `FrameCache.StreamState.RemoveClient` | internal/stream/stream.go:121-125 | takes the leave step |
| `FrameCache.StreamState.SendAll` | internal/stream/stream.go:451-456 | offers the frame to every client once, for every map order; full channels refuse it |
| `FrameCache.DeframeEnframe` | internal/stream/stream.go:385-405 | frames sent with the 12-byte header come out unchanged, and a truncated last one is dropped |
| `FrameCache.ReadAndMux` | internal/stream/stream.go:373-459 | the read loop takes the frame steps of the delivered frames in order |
| `SessionTables.TransactionsKeepSession` | internal/db/db.go:222-293 | registration, disconnect notice, heartbeat, stream port and stream loss keep "claimed implies an active session" |
| `SessionTables.CloseEndsSessions` | internal/db/db.go:340-364 | closing leaves the device without active session, not claimed and with stream port 0, and touches no other device's sessions |
| `SessionTables.CreateAddsSession` | internal/db/db.go:310-337 | a claim adds exactly its row; there is at most one active row afterwards if and only if there was none |
| `SessionTables.Database.CreateSession` | internal/db/db.go:310-337 | commits exactly for a known, unclaimed device and a new id, and otherwise rolls everything back |
| `SessionTables.Database.CloseSession` | internal/db/db.go:340-364 | the two statements have the committed effect |
| `ProviderDaemon.AfterInv` | internal/supervisor/supervisor.go:60-95 | connecting, taking a port or being refused one, activating, disconnecting and tearing down keep: a device is captured exactly while its last claim has not ended, and ports are taken exactly by the supervisors whose Run goes on |
| `ProviderDaemon.ClaimInv` | internal/supervisor/device_supervisor.go:180-212 | a claim keeps the same |
| `ProviderDaemon.ReleaseInv` | internal/supervisor/device_supervisor.go:246-282 | a release keeps the same |
| `ProviderDaemon.SeparatedExact` | internal/stream/stream.go:145-148 | all claims in a trace are separated by releases or teardowns if and only if none found a capture already active |
| `ProviderDaemon.EndBetweenExact` | internal/stream/stream.go:145-148 | two claims have an end between them if and only if some claim after the first and up to the second started its own capture |
| `ProviderDaemon.RoomGrants` | internal/supervisor/port_allocator.go:47-69 | with at least as many blocks as supervised devices, no supervisor is refused a port |
| `ClaimProtocol.StepInv` | internal/coordinator_server/http.go:212-317 | every step of every action, device event and status update keeps the invariants of tables, actions and provider |
| `ClaimProtocol.RunInv` | internal/coordinator_server/http.go:212-317 | the same over every interleaving, for every port range |
| `ClaimOutcomes.StatusUpdates` | internal/db/db.go:222-306 | what registration, heartbeat, disconnect notice, stream loss, stream port and closing do to each field of the row, and that other rows stay |
| `ClaimOutcomes.NewDevice` | internal/db/db.go:222-260 | a device seen for the first time is idle without a stream port |
| `ClaimOutcomes.ClaimRefused` | internal/coordinator_server/http.go:221-225 | a claim of an unknown or claimed device, or one whose transaction does not commit, fails and changes nothing else |
| `ClaimOutcomes.ClaimUnreachable` | internal/coordinator_server/http.go:227-240 | a claim whose provider cannot be reached ends failed and rolled back: row inactive, device idle with port 0, provider untouched |
| `ClaimOutcomes.ClaimRejected` | internal/coordinator_server/http.go:243-259 | the same for a claim that the provider rejects |
| `ClaimOutcomes.ClaimTaken` | internal/coordinator_server/http.go:261-280 | a claim that the provider accepts ends succeeded: row active, device claimed with the replied port, and the provider holding and capturing it |
| `ClaimOutcomes.NotCommitted` | internal/coordinator_server/http.go:249-266 | a rollback or port update that does not commit still ends the claim and leaves the tables alone |
| `ClaimOutcomes.FailedWasRolledBack` | internal/coordinator_server/http.go:227-259 | in every run a failed claim that created its session row has a rollback of its own after it began, and if that committed the row is inactive from then on |
| `ClaimOutcomes.ReleaseAlone` | internal/coordinator_server/http.go:282-306 | an undisturbed release of a known device closes its sessions and ends its claim and capture at the provider, if it is held there |
| `ClaimOutcomes.ReleaseCutShort` | internal/coordinator_server/http.go:285-306 | without a commit a release changes nothing; without a row or a connection the provider is not told |
| `ClaimSafety.ProviderClaimsSeparated` | internal/supervisor/device_supervisor.go:180-212 | in every run the provider claims of each device have releases or teardowns between them if and only if none resumed a left-over capture; and every claimed row has an active session |
| `ClaimSafety.SuccessesSeparated` | internal/coordinator_server/http.go:212-280 | in every run two successful HTTP claims of one device are two provider claims, with a release or teardown between them if and only if a claim after the first and up to the second started its own capture, even after the database has dropped the claim |
| `ClaimSafety.SafeRun` | internal/supervisor/device_supervisor.go:81-86 | while no device without a port is claimed and no device in use is refused a port, claims stay separated and no capture is left over |
| `ClaimSafety.StrandedExact` | internal/supervisor/device_supervisor.go:152-157 | from a reachable state with separated claims, such steps can still break the separation if and only if some capture is left over already |
| `ClaimSafety.OneTooMany` | internal/supervisor/device_supervisor.go:81-86 | for every port range, a run with one device more than there are blocks in which two claims of that device succeed with no release or teardown between them |
| `ClaimSafety.EnoughPortsExact` | internal/supervisor/port_allocator.go:56-69 | in every run with at most n devices supervised at a time claims are separated, if and only if the range holds n blocks |
| `ClaimSafety.RoomKeepsSafe` | internal/supervisor/port_allocator.go:56-69 | with a block for every supervised device no capture is ever left over |
| `ClaimCleanup.RollBackLeavesNone` | internal/coordinator_server/http.go:227-259 | when the rollback of a failed claim commits, the device has no active session, is not claimed and has stream port 0 |
| `ClaimCleanup.StaysReleased` | internal/coordinator_server/grpc.go:85-184 | no step other than a claim of the device brings it back into use, in the database or at the provider |
| `ClaimCleanup.ReleaseCleansUp` | internal/coordinator_server/http.go:282-306 | from any reachable state, a release that commits and reaches a supervisor leaves no active session, stream port 0 and an idle supervisor, absent claims of the device; it leaves no capture, for good, if and only if it did not find the device idle with a left-over capture |
| `ClaimCleanup.SecondActiveRow` | internal/coordinator_server/grpc.go:140-184 | from any claimed state, stream loss, a ping and a claim give a second active row while the provider is unchanged |
| `ClaimCleanup.RowKeptExact` | internal/db/db.go:340-364 | the row of a claim that begins stays active in every run without a release, an offline flip of the device or a rollback of the claim itself, if and only if no other claim of the device is open at that moment |
| `ClaimCleanup.RollbackClosesHolder` | internal/coordinator_server/http.go:227-259 | from any claimed state, after stream loss and a ping the rollback of a second claim leaves no active row, while the provider and the state of every earlier action are unchanged |
| `LateClaims.HeldWithoutSession` | internal/coordinator_server/http.go:243-259 | from any state with a request for an idle device on its way, giving up, rolling back and the late arrival leave the claim failed, no active session, and the provider holding and capturing the device |
| `LateClaims.LaterClaimsFail` | internal/supervisor/device_supervisor.go:180-186 | from any reachable state in which the last claim of a device has not ended, a claim not answered yet succeeds only after a release or teardown of the device, unless it resumes a left-over capture |
| `LateClaims.OnlyGivenUp` | internal/coordinator_server/http.go:248-259 | in every run a failed claim that the provider accepted is one the coordinator gave up on |
| `Simulation.ClaimShows` | internal/supervisor/device_supervisor.go:180-212 | a provider claim succeeds exactly where that of the per-device machine does, with the same effect on state, capture and port |
| `Simulation.StopShows` | internal/supervisor/device_supervisor.go:152-157 | disconnecting and tearing down a supervisor, in any phase, is the stop of the machine |
| `Simulation.SupervisorsAreMachines` | internal/supervisor/supervisor.go:60-120 | in every run of the claim protocol every supervisor is in a state that the per-device machine reaches |
| `DeviceSupervisor.RunInv` | internal/supervisor/device_supervisor.go:180-323 | in every run, unless torn down, a session is set iff claimed or busy, and a capture exists iff claimed or busy, or it was there before and no claim was made; a port is held exactly while Run goes on; Releasing is never seen; events chain along the state diagram; after a teardown nothing is held |
| `DeviceSupervisor.LeftBehindExact` | internal/supervisor/device_supervisor.go:152-157 | a stopped supervisor leaves a capture behind if and only if it got no port and was in use, or was never claimed and found the capture when it started |
| `DeviceSupervisor.OperationEffects` | internal/supervisor/device_supervisor.go:180-323 | in every run, what claim, activation, release, port request and stop do to state, session, capture, port and events |
| `DeviceSupervisor.ClaimSucceedsWhenIdle` | internal/supervisor/device_supervisor.go:180-212 | in every run a claim takes effect if and only if the device is idle and its capture starts or was left over |
| `DeviceSupervisor.ReleaseUndoesClaim` | internal/supervisor/device_supervisor.go:246-282 | in every run claim then release gives the idle device back, up to the events sent, if and only if the claim did not resume a left-over capture |
| `DeviceSupervisor.DeviceSupervisor.Claim` | internal/supervisor/device_supervisor.go:180-212 | takes the claim step on fields and capture table, returns the session id exactly on success, leaves other devices' captures alone |
| `DeviceSupervisor.DeviceSupervisor.Activate` | internal/supervisor/device_supervisor.go:215-236 | takes the activate step, succeeds exactly when claimed |
| `DeviceSupervisor.DeviceSupervisor.Release` | internal/supervisor/device_supervisor.go:246-282 | takes the release step, leaves other devices' captures alone |
| `DeviceSupervisor.DeviceSupervisor.Teardown` | internal/supervisor/device_supervisor.go:286-323 | takes the teardown step and frees exactly the device's port |
| `DeviceSupervisor.DeviceSupervisor.AllocatePort` | internal/supervisor/device_supervisor.go:81-91 | holds the allocated port; without one, exactly when no block is free, Run gives up for good and nothing else changes |
| `DeviceSupervisor.DeviceSupervisor.Stop` | internal/supervisor/device_supervisor.go:152-160 | tears down a supervisor whose Run goes on; after Run gave up it changes neither captures nor ports |
| `DeviceSupervisor.StreamManager.StartCapture` | internal/stream/stream.go:141-148 | an active capture counts as success and is kept; otherwise an entry appears exactly when the capture starts |
| `DeviceSupervisor.StreamManager.StopCapture` | internal/stream/stream.go:475-490 | removes the device's entry and no other |
| `PortAllocator.SearchIsLeast` | internal/supervisor/port_allocator.go:56-69 | the search gives the least free slot, and nothing if and only if every slot is taken |
| `PortAllocator.RunValid` | internal/supervisor/port_allocator.go:47-85 | in every run the two maps are inverse to each other and hold only slots of the range |
| `PortAllocator.ExhaustedExact` | internal/supervisor/port_allocator.go:56-69 | a new device is refused if and only if as many devices have a port as the range has blocks |
| `PortAllocator.FreeUndoesAllocate` | internal/supervisor/port_allocator.go:72-85 | freeing a port just allocated restores the pool |
| `PortAllocator.FillTakesSlots` | internal/supervisor/port_allocator.go:57-64 | the k-th device to connect gets minPort + 10k |
| `PortAllocator.DerivedPortsDistinct` | internal/supervisor/ios_worker.go:57-60 | the ports at offsets 0, 2000, 3000, 3001, 4000 and 5000 of all devices are pairwise distinct in every run if and only if the range is narrower than 1000 |
| `PortAllocator.PortAllocator.Allocate` | internal/supervisor/port_allocator.go:47-69 | keeps an existing port; otherwise takes the least free slot, and fails with nothing changed exactly when every slot is taken |
| `PortAllocator.PortAllocator.Free` | internal/supervisor/port_allocator.go:72-85 | removes the serial's port from both maps, or nothing |
| `PortAllocator.PortAllocator.New` | internal/supervisor/port_allocator.go:25-43 | refuses exactly the ranges with minPort >= maxPort |
| `Compiler.OptimizeSteps` | internal/automation/compiler.go:189-270 | the loop computes the fold that the lemmas are about |
| `Compiler.KeepsTextAndOthers` | internal/automation/compiler.go:189-270 | the typed text and all steps other than inputs and clicks survive in order |
| `Compiler.EveryStepPlaced` | internal/automation/compiler.go:196-262 | every step lands, in order and onto, on an output step: itself, the input it was merged into, or the last kept click it duplicates; the first step to land on a place is kept there unchanged unless it is an input |
| `Compiler.OutputNormal` | internal/automation/compiler.go:231-259 | no two adjacent inputs, no click repeated by the next, and every input carries its edit field |
| `Compiler.FixedPoints` | internal/automation/compiler.go:189-270 | optimization changes nothing if and only if the steps are a settled normal form |
| `Compiler.Idempotent` | internal/automation/compiler.go:189-270 | optimizing twice is optimizing once |
| `Compiler.RepeatedTapDropped` | internal/automation/compiler.go:248-254 | tapping the same spot again adds nothing |
| `Compiler.ClickDroppedExact` | internal/automation/compiler.go:227-255 | a click behind a kept click is dropped if and only if both have targets with the same non-empty resource id, or not both have targets and the first locators agree and are not coordinates, or they are less than 0.01 apart; any other click is added as it is |
| `Compiler.InputPlacedExact` | internal/automation/compiler.go:197-219 | an input behind an input only adds its text; any other stands alone with its own fields, or target, id and class of the edit field clicked just before |
| `Compiler.OtherKept` | internal/automation/compiler.go:258-258 | any other step is added as it is |
| `Compiler.LaunchCompiled` | internal/automation/compiler.go:28-46 | a launch adds launch, wait and check of the expected text |
| `Compiler.SwipeCompiled` | internal/automation/compiler.go:62-72 | a swipe adds one swipe from its start to its end |
| `Compiler.ClickCompiled` | internal/automation/compiler.go:48-59 | clicks and texts reach the optimizer as recorded, unknown events add nothing |
| `Compiler.EndingExact` | internal/automation/compiler.go:76-90 | a script ends by terminating the package of the last launch, if it is not empty |
| `Compiler.CompileScript` | internal/automation/compiler.go:17-94 | the loop yields the optimized steps of all events, ended by terminating the last launched package |
| `Compiler.ScriptTypesRecording` | internal/automation/compiler.go:53-58 | a compiled script types exactly the recorded text |
| `UiTree.UnionCovers` | internal/automation/locator/locator_tree.go:37-53 | every point of a top-level node lies in the virtual root |
| `UiTree.UnionTight` | internal/automation/locator/locator_tree.go:37-53 | each edge of the virtual root is an edge of a child or the value the loop starts from |
| `UiTree.ParseTreeExact` | internal/automation/locator/locator_tree.go:16-55 | no tree for no nodes, the node itself for one, a virtual root over several |
| `UiTree.ConvertFields` | internal/automation/locator/locator_tree.go:58-88 | an element has the attributes of its XML node; a flag is set exactly by "true" |
| `XPath.SplitJoin` | internal/automation/locator/locator_xpath.go:39-39 | splitting joined parts gives them back if and only if none holds a slash |
| `XPath.BuildXPath` | internal/automation/locator/locator_scoring.go:234-246 | the upward loop prints the parts from the root down |
| `XPath.FindFirst` | internal/automation/locator/locator_xpath.go:49-58 | the first sibling with the index, or none |
| `XPath.WalkParts` | internal/automation/locator/locator_xpath.go:38-65 | the loop over the parts computes the recursive walk, including where the source would panic |
| `XPath.SearchExact` | internal/automation/locator/locator_xpath.go:67-119 | a search finds the accepted node before which exactly target - 1 accepted nodes come in document order, and nothing if and only if there are fewer or the number is below 1 |
| `XPath.CollectAll` | internal/automation/locator/locator_xpath.go:125-139 | the recursion collects the accepted nodes in document order |
| `XPath.EvaluateXPath` | internal/automation/locator/locator_xpath.go:16-122 | trimming, the (...)[k] form, indexed paths and searches, with every outcome |
| `XPath.RoundTrip` | internal/automation/locator/locator_xpath.go:38-65 | in a single-rooted hierarchy the path built for a node evaluates to that node if and only if no index on it holds a slash and each node on it is the first of its siblings with its index |
| `XPath.ManyRootsMissing` | internal/automation/locator/locator_scoring.go:240-242 | with several roots every built path evaluates to nothing |
| `XPath.OverlapExact` | internal/automation/locator/locator_xpath.go:44-47 | prefix and suffix of a part overlap if and only if it is node[@index='] |
| `XPath.WalkPanics` | internal/automation/locator/locator_xpath.go:43-47 | an indexed walk panics if and only if some part is that one and the parts in front of it lead to a node |
| `XPath.PanicsExact` | internal/automation/locator/locator_xpath.go:16-122 | evaluation panics if and only if an indexed walk does so, or the first bracket of a search is its last character |
| `Searches.FindByContentDesc` | internal/automation/locator/locator_xpath.go:100-101 | an unambiguous search by content-desc finds the first node in document order of the class with that contentDesc, and nothing if and only if there is none |
| `Searches.FindByText` | internal/automation/locator/locator_xpath.go:102-103 | the same by text: the value is part of the text |
| `Searches.FindByResourceId` | internal/automation/locator/locator_xpath.go:98-99 | the same by resource-id: equal, or ending in it behind ":id/" |
| `Searches.FindByClass` | internal/automation/locator/locator_xpath.go:104-105 | the same by class |
| `Searches.FindByIndex` | internal/automation/locator/locator_xpath.go:106-107 | the same by index |
| `Searches.FindByClassAlone` | internal/automation/locator/locator_xpath.go:92-95 | without attribute the first node of the class; an empty class, * and node stand for any |
| `Searches.UnknownAttributeMissing` | internal/automation/locator/locator_xpath.go:108-109 | a search by any other attribute finds nothing |
| `Searches.KthMatch` | internal/automation/locator/locator_xpath.go:24-36 | (search)[k] asks for the k-th match |
| `Searches.UnwrapOnly` | internal/automation/locator/locator_xpath.go:24-36 | only that form with a readable k is unwrapped |
| `Searches.FindAtTop` | internal/automation/locator/locator_xpath.go:38-65 | an indexed path of one part finds the first top-level node with the index, or nothing |
| `Searches.SurroundingSpaceIgnored` | internal/automation/locator/locator_xpath.go:21-21 | white space around an XPath makes no difference |
| `HitTest.HitsExact` | internal/automation/locator/locator_scoring.go:161-171 | the pruned walk collects exactly the nodes whose whole root path contains the point |
| `HitTest.HitExact` | internal/automation/locator/locator_scoring.go:161-171 | a node is hit if it and the nodes above it contain the point, edges included |
| `HitTest.ActionableExact` | internal/automation/locator/locator_scoring.go:184-185 | on the XML: clickable, focusable or long-clickable, or child of a scroll container |
| `HitTest.NearestExact` | internal/automation/locator/locator_scoring.go:182-193 | the nearest actionable node at or above, none between, and nothing if and only if none is actionable |
| `HitTest.WalkUp` | internal/automation/locator/locator_scoring.go:182-193 | the upward loop finds the nearest actionable node |
| `HitTest.CollectActionable` | internal/automation/locator/locator_scoring.go:178-194 | collects the nearest actionable nodes of the candidates, each once |
| `HitTest.PoolExact` | internal/automation/locator/locator_scoring.go:177-199 | what is sorted are exactly the actionable hits, or all hits if none is actionable |
| `HitTest.FindBestElementAt` | internal/automation/locator/locator_scoring.go:154-214 | nothing if and only if the root misses the point; otherwise a node of that pool containing the point, of maximal score and, among those, least area |
| `HitTest.ScrollContainersLose` | internal/automation/locator/locator_scoring.go:65-130 | an enabled clickable non-container covering at most half the screen outranks every scroll container |
| `HitTest.FlagWeights` | internal/automation/locator/locator_scoring.go:69-74 | clickable is worth 100, enabled 50, focusable nothing, whatever else holds |
| `HitTest.TextWeights` | internal/automation/locator/locator_scoring.go:75-83 | a resource id is worth 20, a text 15, a description 15 |
| `HitTest.ClassWeights` | internal/automation/locator/locator_scoring.go:86-112 | classes differ by their points only |
| `HitTest.ClassPointsExact` | internal/automation/locator/locator_scoring.go:86-112 | the bonus of every class, less 200 for scroll containers and 80 for other containers; 120 for the plain view is never charged |
| `HitTest.PenaltyExact` | internal/automation/locator/locator_scoring.go:116-127 | 150, 80 or 30 above a half, a fifth or a twentieth of the screen |
| `HitTest.WrappedPenalty` | internal/automation/locator/locator_scoring.go:118-119 | a screen area that wraps to 0 counts as covered, a negative one as not |
| `HitTest.SizeWeights` | internal/automation/locator/locator_scoring.go:115-127 | the size costs that penalty and nothing else |
| `HitTest.ScrollContainersExact` | internal/automation/locator/locator_scoring.go:16-33 | scroll containers are the classes that end in one of the listed names |
| `HitTest.ContainersExact` | internal/automation/locator/locator_scoring.go:36-63 | containers are the classes that end in one of the listed names |
| `HitTest.ContainerNames` | internal/automation/locator/locator_scoring.go:16-63 | the listed names |
| `HitTest.TruncExact` | internal/automation/locator/locator_scoring.go:155-156 | the pixel is the scaled position cut off toward zero |
| `Resolver.FlattenExact` | internal/automation/dsl/dsl.go:254-265 | the pre-order list holds exactly the nodes of the tree |
| `Resolver.ResolveElement` | internal/automation/locator/locator.go:112-159 | the result is a node of maximal score over the whole tree, ties broken by area difference, and an error if and only if that maximum is below 20 |
| `Resolver.ResolvedIsMaximal` | internal/automation/locator/locator.go:139-158 | failure exactly below 20, and no node scores above the result |
| `Resolver.ResolvedIsClosest` | internal/automation/locator/locator.go:142-150 | among nodes of the highest score the area of the result is closest to the target |
| `Resolver.OwnWeights` | internal/automation/locator/locator.go:22-57 | what each recorded attribute adds to a score, and what a mismatch costs |
| `Resolver.SiblingExact` | internal/automation/locator/locator.go:61-66 | a sibling with the text is another child of the same parent |
| `Resolver.ContextExact` | internal/automation/locator/locator.go:69-106 | without anchor the surroundings add 50 for each sibling text shared and 30 for a parent of the same class |
| `Resolver.AnchorExact` | internal/automation/locator/locator.go:60-101 | an anchor adds 50 for the sibling text, 20 for the class and 40 for the id of the parent |
| `Resolver.SelfIsMaximal` | internal/automation/locator/locator.go:18-109 | no node scores higher against a recorded element than itself, at least 30, and an equal score means equal bounds and recorded attributes |
| `Resolver.UnchangedTreeResolves` | internal/automation/locator/locator.go:112-159 | resolving an element in its own tree succeeds with a node of the same bounds and recorded attributes |
| `Locators.LocatorScore` | internal/automation/locator/locator.go:18-109 | what the temporary target of a locator scores against any node |
| `Locators.FindByLocator` | internal/automation/locator/locator.go:170-210 | errors for empty trees and unknown strategies; otherwise an XPath evaluation or the hierarchy node of a resolved element, and nothing for the virtual root |
| `Locators.UnanchoredExact` | internal/automation/locator/locator.go:170-210 | without anchor, a non-empty resourceId, text or contentDesc locator finds a node of the hierarchy if and only if some node carries it, and only such a node |
| `Locators.CarriesExact` | internal/automation/locator/locator.go:22-50 | what carrying an id, a text or a description means on the attributes |
| `Locators.ClassExact` | internal/automation/locator/locator.go:53-57 | without anchor a class locator resolves if and only if some node has the class or no bounds, to a node of the class if and only if some node has both or every node has bounds |
| `Locators.NothingToLocate` | internal/automation/locator/locator.go:171-196 | an empty hierarchy and an unknown strategy are errors |
| `Locators.AnchoredIdBeats` | internal/automation/locator/locator.go:21-101 | with any anchor a node with the resource id outscores every node without |
| `Locators.AnchoredIdFound` | internal/automation/locator/locator.go:170-210 | with any anchor, a resource id that some node carries is found on a node that carries it |
| `Locators.MatchBeatsExact` | internal/automation/locator/locator.go:32-101 | a text or contentDesc match outscores every other node in every parsed tree if and only if the anchor lacks one of its three parts |
| `Locators.CarrierFoundExact` | internal/automation/locator/locator.go:170-210 | with an anchor, a text or contentDesc locator that some node carries is found on such a node in every hierarchy if and only if the anchor lacks a part or its sibling text is the text looked for |
| `Locators.AnchoredExact` | internal/automation/locator/locator.go:63-101 | with an anchor, a text or contentDesc locator only finds nodes that carry it, in every hierarchy, if and only if the anchor has no parent id and no sibling text other than the text looked for |
| `Tracker.Diff` | internal/adb/tracker.go:259-299 | for every map order, exactly the events called for by the two snapshots, one per serial |
| `Tracker.DiffExact` | internal/adb/tracker.go:259-299 | a serial gives a connected, unauthorized or offline event if and only if it is now in that state and was not before, and a disconnect if and only if it is gone |
| `Tracker.ReplayDiff` | internal/app/app.go:193-289 | what the events of one snapshot do to the registry, whatever their order |
| `Tracker.RegistryIsOnline` | internal/adb/tracker.go:199-239 | after any snapshots of one connection the registry holds exactly the serials of the last one that were in state device in some snapshot since they last appeared |
| `Tracker.Tracker.OnSnapshot` | internal/adb/tracker.go:225-237 | emits the diff against the previous snapshot and keeps the current one |
| `Tracker.Tracker.EvictAll` | internal/adb/tracker.go:303-313 | emits a disconnect exactly for the devices in state device and forgets all |
| `Tracker.EvictLeavesUnready` | internal/adb/tracker.go:303-313 | after a lost connection exactly the registered devices that were not in state device stay registered |
| `Scheduler.RunInv` | internal/automation/scheduler.go:42-81 | every interleaving of any number of calls keeps tasks, results and active runs consistent |
| `Scheduler.ActiveIsExecuting` | internal/automation/scheduler.go:51-68 | in every run the active runs are exactly the serials being executed, each by one goroutine |
| `Scheduler.ReturnedHasResults` | internal/automation/scheduler.go:54-75 | a call that returned has one result per task, stored once, with the task's own serial |
| `Scheduler.EveryTaskJustified` | internal/automation/scheduler.go:51-75 | in every run a task was refused, and its result says busy, only because another was executing its serial when it was checked; a result is a report only because none was, and it is the report of its own execution |
| `Scheduler.FreeTaskExecuted` | internal/automation/scheduler.go:59-75 | in every run a task checked while nobody executes its serial is executed, and its result is that execution's report |
| `Scheduler.BusyTaskRefused` | internal/automation/scheduler.go:52-58 | in every run a task checked while another executes its serial gets the busy result |
| `Scheduler.CallCanReturn` | internal/automation/scheduler.go:79-80 | from every reachable state every call can be brought to return |
| `Scheduler.CallStarts` | internal/automation/scheduler.go:42-48 | a call starts one waiting goroutine per task |
| `Scheduler.NothingActiveAfterReturns` | internal/automation/scheduler.go:64-80 | once all calls have returned no run is active |
| `Agent.RunInv` | internal/agent/agent.go:180-198 | every interleaving of sends, replies, deliveries and timeouts keeps pending table, channels and callers consistent |
| `Agent.AnswersMatch` | internal/agent/agent.go:423-454 | in every run a caller only receives a payload with its own id, and no reply send finds the channel full |
| `Agent.PendingIsUnanswered` | internal/agent/agent.go:425-433 | in every run pending holds exactly the commands not yet left whose reply has not been looked up |
| `Agent.AnsweredOnce` | internal/agent/agent.go:447-449 | an answer received stays the caller's only one, whatever arrives later |
| `Agent.SendWaits` | internal/agent/agent.go:421-427 | a command sent is pending and in flight |
| `Agent.AnswerWasHeard` | internal/agent/agent.go:180-198 | in every run the payload of an answer came in a reply while its command was pending |
| `Agent.ReplyReaches` | internal/agent/agent.go:180-198 | in every run the reply to a pending command, once delivered, is what its caller receives |
| `Agent.NoReplyLost` | internal/agent/agent.go:191-196 | in every run a caller whose reply was looked up can still be answered |
| `Agent.GiveUpLeaves` | internal/agent/agent.go:429-433 | a caller can always give up, and is then no longer pending |

## Left out

- Frontend, HTTP routing, JSON, YAML and XML decoding, gRPC stubs: plumbing and libraries; decoded values are the inputs here.
- ADB, go-ios, WDA and scrcpy processes: they appear only as the success or failure of a step.
- fMP4 building, JPEG scaling, authentication, groups and admin handlers: library calls or row updates without deep properties.
- Timers, back-off and cancellation: a timeout is a step that may happen at any time; `FrameCache.ReadAndMux` runs until its input ends.
- `parseDeviceSnapshot` and device property parsing: snapshots are maps already.
- How `fmt.Sscanf` reads a number, and strings as bytes: XPaths and attributes are sequences of characters.
- `GenerateLocators`, `ExtractAnchor` and `compileClickEvent`: a click event carries its compiled parameters, and the expected text after a launch is a parameter.
- Click and input fields that the optimizer only copies (anchor, description, text of a click) are not in the model's click parameters.
- Dropped supervisor events and telemetry events: the event chain is that of the transitions as they are sent.
- Calls on a supervisor that was looked up before its disconnect, and a reset through the admin socket while a teardown is running.
- The `Supervisor` map of `DeviceSupervisor` objects, the scheduler's goroutines and the agent's channels are modelled on values, as state machines, because their interleaving is the point; updates in place are not captured there.
- More than one provider with the same serial, and provider restarts: the claim protocol has one provider daemon, to which every serial belongs, and provider names matter only in the tables.
- Deleting devices or providers, which removes session rows by cascade.
