# Module bus and skills: a verified model

This project models a small shared-memory module bus and the skills decisions that run on it, and
proves what they are for. `dafny verify dfyconfig.toml` checks all of it.

**The bus.** A client shares two single-producer, single-consumer rings with a host. A frame is a
64-byte header and an inline payload in one ring slot. On top of frames, a caller cuts a request into
fragments, each with a 40-byte envelope; a module process joins them per correlation, hands the body to
a worker, and cuts the reply the same way; the caller picks its own fragments out of whatever arrives.
Each layer is proved against a simpler one, and the layers compose:

| layer | files | refined to |
|---|---|---|
| bytes and codecs | `Bytes`, `Wire`, `ModuleProtocol` | bijections between records and bytes |
| ring | `RingLayout`, `Rings` (one side at a time, in place), `RingMachine` (both sides, one atomic step at a time) | a first-in first-out queue |
| client | `BusClient`, `HostSide` (what the host does to its rings) | append one event, take one event |
| fragments | `Fragments`, `CallerSend`, `RuntimeReply`, `CallerAwait`, `ModuleCaller` | one body out, one body in |
| module runtime | `RuntimeModel` (state machine), `RuntimeLoop` (the loop itself, a class), `RuntimeInvariant`, `RuntimeHistory`, `RuntimeDecisions`, `ValidReplies` | invariants and accounts over every run |
| one call | `RequestArrival`, `ReplyArrival`, `RefusalArrival`, `EndToEnd`, `Progress`, `Endpoints` | the handler gets the request, the caller gets the response or the refusal |

The ring is treated twice. `Rings` and everything above it use the ring as one side sees it between the
other side's steps; `RingMachine` proves that interleaving the two sides' atomic loads, stores and slot
writes, each deciding on index values that may be stale, changes nothing about that picture. The runtime
is treated twice for the same reason: `RuntimeModel` takes the loop, the workers and the channel apart
into steps that can interleave in any order, and `RuntimeLoop` is the loop in its own imperative form,
every turn of which is shown to be a run of those steps over exactly the events it polled. `Endpoints`
puts the two ends together: the contracts of `Call` and `Serve` are its hypotheses, and what `Call`
returns is its conclusion.

**The skills.** `Search`, `TriggerText`, `TriggerGo`, `TriggerC` and `TriggerWire` hold the two
implementations of the trigger decision and of its wire handlers, each proved against one meaning of the
front matter; `TriggerEntries` states that meaning without the scan, `TriggerLaws` in single bytes, and `TriggerMargins`, `TriggerAlike`,
`TriggerParity` and `TriggerAgreement` say when the two agree. `FileTree`, `RestorePlan` and `Rollback`
restore a snapshot over a file system with links, whose operations can fail and whose listings can end
early. `Patch` is the replace loop, `Lifecycle` the archive-and-mark-stale pass, `SkillName` the tool slug.

Where a method is proved against a function of the model, further laws say what that function means without
naming it, by byte offsets, wire numbers, characters, file names and seconds: `EncodedAt` and `DecodedAt` of
both codecs, `RingLayout.QueueAt`, `BusClient.AppendedBytes`, `Fragments.RequestIsOut`,
`RuntimeReply.ReplyOnWire`, `RuntimeDecisions`, `TriggerLaws`, `LifecycleOutcome` and those of `SkillName`.

## What does not hold, and exactly when it does

* `Poll` has no wrap guard on the payload end. A slice out of range is reached exactly when the end offset
  wraps past 2^64 into the slot (`BusClient.FaultExactlyOnWrap`; `BusClient.PollCanFault` is a frame that
  does); frames that pass `CheckPlacement`, and those `emit` wrote, are always delivered
  (`BusClient.PlacedIsDelivered`, `BusClient.EmittedView`).
* A request can reach a handler cut short: when a fragment is refused for want of room, later fragments of
  the same request begin a new body (`RequestArrival.RefusalCutsShort`; `RequestArrival.RequestCutShort` is
  such a run of a module that has just started). The handler gets the whole request exactly when there is
  room at each of its fragments (`RequestArrival.RequestArrives`).
* `Ring.Count` loads its two indices one after the other. Called by neither side it can exceed the capacity
  (`RingMachine.CountCanExceed`); it is within the capacity exactly under the condition of
  `RingMachine.CountBound`, in particular always for the producer and the consumer themselves.
* The comment on `Call` promises a cancel when the deadline is exceeded; the code calls it best effort. After
  a failed wait it is published exactly if the host still has the epoch the client attached to and the
  outbound ring has a free slot at that moment (`ModuleCaller.Caller.Call`); `ModuleCaller.CancelIsLost` is a
  call that goes without. If the slot to be read next faults there is no failed wait: the slice panics, and
  `Call` neither returns nor cancels (`ModuleCaller.CrashSendsNoCancel`).
* `Call` compares the request length after a conversion to 32 bits. That is the comparison with the limit
  exactly under the condition of `ModuleCaller.LengthCheckExactly`; a request of 2^32 bytes is sent
  (`ModuleCaller.HugeRequestIsSent`).
* A cancel that comes after a worker has loaded its flag is too late, and the reply is OK with its body
  (`RuntimeInvariant.LateCancelComesTooLate`); one that comes before is honoured
  (`RuntimeInvariant.CancelledResult`).
* None of the directory loops of the rollback tells a read error from the end of a directory, so a restore
  can report success and be incomplete (`Rollback.EmptyRestoreSucceeds`, `Rollback.StaleSkillSurvives`).
  Worse, a link among the skills that their listing did not give is followed when the snapshot has something
  of its name: the restore writes where it leads (`Rollback.RestoreGoesAstray`). Without faults, and once the
  listed skills are cleared, writes go astray exactly if `Rollback.Unobstructed` fails, which it cannot if the
  skills were listed to the end (`Rollback.NothingInTheWay`). Success is the restored tree exactly if that and `Rollback.AllRefreshed` hold
  (`Rollback.FileSystem.RollbackSnapshot`, `Rollback.RestoredExactly`).
* `docs/modules/skills.md` calls the C trigger files parity fixtures. Go trims every Unicode white space
  character, C only the six ASCII ones, so they disagree on a content with, say, an entry indented with a
  no-break space (`TriggerParity.WitnessDisagrees`). A key gets the same value exactly under the condition
  of `TriggerMargins.LineValueAgreesExactly`. Not every difference in a value matters: none does behind a
  tool name, and behind a pattern only at the end of one whose quote is never closed. What does matter is
  `TriggerAlike.ReadAlike`: for a block of one entry it is exactly the condition to decide alike
  (`TriggerParity.OneEntryExactly`), and if all entries of a content meet it, so does the content
  (`TriggerParity.AlikeIsDecidedAlike`). With more entries another one can make up for a line that is not
  read alike; `TriggerAgreement.DecidedAlikeExactly` is the exact condition for any content, read off the
  tools and patterns its entries spell.
* `skill_manage_patch` works on a C string: what follows a NUL in a skill's file is lost
  (`Patch.RestIsDropped`).

## Model

| member | source | states |
|---|---|---|
| Bytes.PowerOfTwoTest | server-go/bus/ring.go:60-63 | `v & (v-1) == 0` on a nonzero value means exactly that it is a power of two |
| Bytes.AndMask | server-go/bus/ring.go:88-91 | masking with 2^k - 1 is reduction modulo 2^k |
| Bytes.FieldOfPack | server-go/bus/wire.go:175-187 | a field of a packed little-endian record reads back as the value stored, whatever bytes follow |
| Bytes.PackOfFields | server-go/bus/wire.go:201-212 | packing the fields read from a byte string gives those bytes back |
| Bytes.ByteAt | server-go/bus/wire.go:178-187 | byte `i` of a little-endian number has weight 256^i |
| Bytes.PieceOfPack | server-go/bus/wire.go:175-187 | the bytes of each field of a packed record are that field, little-endian, at its own offset |
| Wire.ExactlyOneSmall | server-go/bus/wire.go:111 | `v & (v-1)` with `v != 0` on the masked flags holds exactly when one bit is set |
| Wire.ValidMeans | server-go/bus/wire.go:114-158 | Validate accepts a frame exactly when: known flags only, one pattern, one placement iff there is a payload, the payload limit, "more" only on inline request or reply fragments with a payload, a generation only with arena placement, and a zero correlation exactly on notifications |
| Wire.InvalidMeans | server-go/bus/wire.go:114-158 | which error a refused frame gets, with the exact condition for each: the version first, then the flags, the payload length or reference of a header whose pattern and placement are right, the correlation last |
| Wire.DecodeOfEncoded | server-go/bus/wire.go:164-218 | decoding the 64 bytes of a valid frame, whatever follows them, gives the frame back |
| Wire.EncodedOfDecode | server-go/bus/wire.go:193-218 | an accepted header is exactly the encoding of the frame it decodes to |
| Wire.Encode | server-go/bus/wire.go:164-189 | succeeds exactly on 64 bytes of room and a valid frame; then the slot starts with the frame encoded, laid out as `Wire.EncodedAt` says, and nothing else changes |
| Wire.Decode | server-go/bus/wire.go:193-218 | gives the frame or the first error of the documented order, from the bytes at the places `Wire.DecodedAt` names |
| Wire.EncodedAt | server-go/bus/wire.go:175-187 | all thirteen fields of a header at their byte offsets: magic 0..4, flags 4..6, version 6..8, kind 8..12, principal 12..16, correlation 16..24, sequence 24..32, logical time 32..40, payload reference 40..48 and length 48..52, source 52..56, destination 56..60, generation 60..64 |
| Wire.DecodedAt | server-go/bus/wire.go:193-218 | a slot is short exactly below 64 bytes and badly marked exactly if bytes 0..4 are not the magic; otherwise the frame read has each field from its byte offset, and is accepted exactly if valid |
| Wire.PlacementMeans | server-go/bus/wire.go:223-246 | with its 64-bit wrap-around the inline check agrees with the bounds on unbounded integers |
| Wire.OtherPlacements | server-go/bus/wire.go:223-246 | an arena payload is placed exactly if it is at most the arena, a header without a payload always; an invalid header keeps its own error |
| ModuleProtocol.DecodeOfPayload | server-go/bus/module_protocol.go:58-95 | a valid envelope followed by its body decodes to that envelope and that body |
| ModuleProtocol.PayloadOfDecode | server-go/bus/module_protocol.go:76-95 | an accepted payload is its re-encoded envelope, the announced body, and padding |
| ModuleProtocol.Encode | server-go/bus/module_protocol.go:58-74 | writes the 40 bytes exactly when there is room and the message is valid; otherwise nothing |
| ModuleProtocol.EncodedAt | server-go/bus/module_protocol.go:63-73 | all ten fields of an envelope at their byte offsets: magic, version 1 and length 40 in 0..8, operation 8..10, status 10..12, stage 12..16, flags 16..20, body length 20..24, deadline 24..32, trace 32..40 |
| ModuleProtocol.DecodedAt | server-go/bus/module_protocol.go:76-95 | a payload is accepted exactly if the numbers at those offsets are an envelope: magic, version, length, operation 1 or 2, status at most 5 and 0 in an invocation, a stage, no flags, at most 16 MiB, all there; and then reads as just these numbers |
| RingLayout.MaskIsModulo | server-go/bus/ring.go:88-91 | for every sound geometry `index & mask` is the index modulo the capacity |
| RingLayout.SlotInBounds | server-go/bus/ring.go:88-91 | every slot lies between the 192-byte header and the end of the ring, and the offset arithmetic stays below 2^63 |
| RingLayout.NeedBound | server-go/bus/ring.go:62-66 | `slotsOff + slot*cap` stays below 2^63 for any accepted 32-bit fields |
| RingLayout.SlotsApart | server-go/bus/ring.go:88-91 | two indices share a slot or their slots are disjoint |
| RingLayout.OccupiedIs | server-go/bus/ring.go:84-86 | head minus tail modulo 2^64 is the number of unread slots, at most the capacity, whatever the counters have wrapped to; they are equal exactly when nothing is unread |
| RingLayout.QueueAt | server-go/bus/ring.go:84-91 | the queue byte for byte: head at 64, tail at 128, and the unread slots from tail on, modulo the capacity, from byte 192 on |
| RingLayout.FreeSlotApart | server-go/bus/ring.go:96-104 | the slot at head is disjoint from every unread slot when the ring is not full |
| RingLayout.WriteFreeSlot | server-go/bus/ring.go:96-104 | any write inside the free slot leaves the queue as it was |
| RingLayout.Publish | server-go/bus/ring.go:106-109 | storing head + 1 appends exactly the slot at head |
| RingLayout.Release | server-go/bus/ring.go:123-126 | storing tail + 1 removes exactly the oldest slot |
| Rings.CapacityOkMeans | server-go/bus/ring.go:58-62 | the checks on capacity and slot size accept exactly the powers of two from 2 with nonempty slots |
| Rings.AdoptedHolds | server-go/bus/ring.go:46-75 | whatever lies between the indices of an adopted ring is its initial queue |
| Rings.AdoptableAt | server-go/bus/ring.go:46-75 | an adoptable mapping by its bytes: magic 0..4, slot size 4..8, a power of two 8..12, one less 12..16, 192 at 16..20, all slots within it, head at most the capacity past tail |
| Rings.Ring.Attach | server-go/bus/ring.go:46-75 | adopts exactly the mappings whose header is consistent, fits, and whose indices are at most one capacity apart |
| Rings.Ring.Count | server-go/bus/ring.go:84-86 | called alone, the number of unread slots |
| Rings.Ring.ProduceBegin | server-go/bus/ring.go:96-104 | fails exactly when the ring is full; otherwise returns the free slot at head |
| Rings.Ring.ProduceCommit | server-go/bus/ring.go:106-109 | appends the bytes of the slot at head to the queue, and changes nothing else |
| Rings.Ring.ConsumeBegin | server-go/bus/ring.go:113-121 | fails exactly when the queue is empty; otherwise returns the oldest slot |
| Rings.Ring.ConsumeCommit | server-go/bus/ring.go:123-126 | drops the oldest slot, and changes nothing else |
| Rings.Ring.Init | server-go/bus/ring.go:130-149 | lays out an empty, adoptable ring exactly when geometry and size allow it |
| RingMachine.AdoptedInv | server-go/bus/ring.go:46-75 | an adopted ring with both sides idle satisfies the invariant of the interleaved machine |
| RingMachine.StepKeepsInv | server-go/bus/ring.go:96-126 | every atomic load, store or slot write of either side, deciding on index values loaded earlier, keeps the invariant |
| RingMachine.RunKeepsInv | server-go/bus/ring.go:96-126 | hence so does every interleaving |
| RingMachine.StepIsQueueStep | server-go/bus/ring.go:96-126 | each atomic step appends the slot just written, removes the oldest, or leaves the queue alone |
| RingMachine.FirstInFirstOut | server-go/bus/ring.go:84-126 | over every run the consumer has seen, in order, a prefix of what was published, and the distance of the indices is the queue length and at most the capacity |
| RingMachine.WriterStaysClear | server-go/bus/ring.go:96-104 | in every run the slot being written overlaps no unread slot, so never the one the consumer holds |
| RingMachine.HeldSlotIsStable | server-go/bus/client.go:277-305 | while the consumer holds a slot nothing the producer does changes it: a polled payload stays as it is until the next Poll |
| RingMachine.TailLoadDecides | server-go/bus/ring.go:96-104 | on a head loaded earlier, ProduceBegin fails exactly when the queue is full as it loads tail |
| RingMachine.HeadLoadDecides | server-go/bus/ring.go:113-121 | on a tail loaded earlier, ConsumeBegin fails exactly when the queue is empty as it loads head, and otherwise holds the oldest slot |
| RingMachine.CountBound | server-go/bus/ring.go:84-86 | a count across two loads is within the capacity exactly when no more was released between the loads than had been published at the first (up to wrap-around); the producer and the consumer always see a bounded count |
| RingMachine.CountCanExceed | server-go/bus/ring.go:84-86 | from any empty queue, one slot produced and consumed between the two loads makes the count exceed the capacity |
| BusClient.PlacedIsDelivered | server-go/bus/client.go:294-304 | Poll delivers every slot whose frame passes CheckPlacement, an inline one with exactly the bytes it points at |
| BusClient.FaultExactlyOnWrap | server-go/bus/client.go:299-302 | Poll's own bound lets a slice out of range exactly when the end offset wraps past 2^64 and lands inside the slot |
| BusClient.PollCanFault | server-go/bus/client.go:299-302 | there is a frame that Decode accepts and whose slice faults |
| BusClient.EmittedView | server-go/bus/client.go:203-217 | a slot filled by emit is seen by Poll with the same frame and payload |
| BusClient.AppendedBytes | server-go/bus/client.go:203-217 | the bytes of an emitted slot: kind, correlation and flags as given, the inline flag and payload reference 64 exactly with a payload, the client's handle as the source, zero in principal, sequence, logical time, destination and generation, the payload after the header |
| BusClient.Client.Emit | server-go/bus/client.go:188-220 | ends as the source orders its checks; on success exactly one slot is appended, with these bytes, seen with the frame and payload sent; on any error the queue is unchanged |
| BusClient.Client.EmitFails | server-go/bus/client.go:188-202 | the exact condition for each error: too large a payload before a new epoch, and that before a full ring |
| BusClient.Client.Fragment | server-go/bus/client.go:234-267 | refuses a zero correlation and an empty "more" fragment; otherwise emits with exactly the flags of a request or reply fragment |
| BusClient.Client.Cancel | server-go/bus/client.go:270-275 | emits one cancel of a nonzero correlation |
| BusClient.Client.Poll | server-go/bus/client.go:279-305 | releases the previous event, then delivers the oldest slot, drops an undecodable one, or reports nothing; never goes past head |
| BusClient.ViewSlot | server-go/bus/client.go:294-302 | decodes and slices in place what the view function says of the slot |
| Fragments.ChunkLaw | server-go/bus/module_caller.go:140-161 | the pieces join back to the body, all but the last are full, only the last may be empty, and only for an empty body |
| Fragments.ChunkCountIs | server-go/bus/module_runtime.go:235-273 | there are max(1, ceil(n / (budget-40))) of them |
| Fragments.FragmentReads | server-go/bus/module_caller.go:202-217 | a fragment decodes to its envelope and its piece |
| Fragments.RequestIsOut | server-go/bus/module_caller.go:147-160 | every fragment of a request reads as inline request flags (0x89, the last 0x09), the given kind and correlation, operation 1, status 0, flags 0, the given stage, deadline and trace, and its piece |
| Fragments.ReplyReads | server-go/bus/module_runtime.go:242-265 | every fragment of a reply reads as inline reply flags (0x91, the last 0x11), operation 2, deadline 0, and the given kind, correlation, status, stage, trace and piece |
| Fragments.FragmentIsValid | server-go/bus/client.go:203-214 | a fragment's frame is valid exactly when its payload is within the limit |
| CallerSend.SendOne | server-go/bus/module_caller.go:144-160 | one fragment goes out exactly when the envelope is valid, the geometry fits, the host lives and there is room; otherwise nothing is appended |
| CallerSend.Send | server-go/bus/module_caller.go:134-163 | with the host taking slots and publishing epochs before each fragment as a script says: appends, in order and once each, a prefix of the request's fragments, each decoding to the kind, correlation, stage, deadline, trace and piece it was called with; all of them exactly when the geometry fits and each fragment finds the attached epoch and a free slot |
| CallerSend.KeepingUp | server-go/bus/module_caller.go:143-161 | with a host that takes a slot before each fragment, a request of any number of fragments goes out through a ring with one slot free at the start |
| CallerSend.RestartStops | server-go/bus/module_caller.go:143-161 | a restart after the first fragment makes the send of a longer request fail, whatever the room |
| RuntimeReply.PublishFragment | server-go/bus/module_runtime.go:251-271 | however often the ring is full, and whatever the host takes or publishes between two attempts, the fragment enters it once or not at all |
| RuntimeReply.ReplyResult | server-go/bus/module_runtime.go:223-275 | appends, in order and once each, a prefix of the reply's fragments, all of them exactly on success; with fitting geometry and an identified stage and correlation only the host going away or the context ending can stop it |
| RuntimeReply.ReplyOnWire | server-go/bus/module_runtime.go:223-275 | what a receiver reads of a reply: an unknown status or a body over 16 MiB has become status 5, only status 0 carries its body, and kind, correlation, stage and trace are those of the reply |
| CallerAwait.AwaitIsolation | server-go/bus/module_caller.go:187-201 | nothing under another correlation, a late reply to an earlier call included, influences the outcome |
| CallerAwait.AnswerIsOwnBodies | server-go/bus/module_caller.go:202-221 | an answered call returns the joined bodies of its own OK results up to the first without "more", within the limit |
| CallerAwait.PacketDecides | server-go/bus/module_caller.go:191-221 | what one packet does to a wait, with the exact condition for each outcome: kind 4 an absent capability, kind 3 a rejection, a result with a status that failure, one past 16 MiB a runtime failure, the last one the answer, anything else nothing |
| CallerAwait.FirstDecides | server-go/bus/module_caller.go:169-223 | a wait ends with the first packet that ends it |
| CallerAwait.AwaitSplit | server-go/bus/module_caller.go:169-223 | waiting over two stretches of traffic is waiting over both |
| CallerAwait.Accept | server-go/bus/module_caller.go:191-221 | one event handled in the source's order; the 32-bit length sum cannot wrap and the short-payload exit is dead |
| CallerAwait.AwaitReply | server-go/bus/module_caller.go:169-223 | what the slots gone past since the start decide; if they decide nothing, a deadline or an ended context only where the first step of the host to end the wait says so, with nothing left to read, and a bus failure only for an uncontrolled client, a changed epoch, or a slot that faults |
| CallerAwait.DecidedWait | server-go/bus/module_caller.go:169-223 | if the slots that arrive decide the call, with a live host and readable slots, the wait ends with that decision |
| CallerAwait.FaultEndsWait | server-go/bus/client.go:294-302 | if the slot the wait begins at faults, the wait ends there and with that fault |
| ModuleCaller.Caller.Call | server-go/bus/module_caller.go:96-130 | refuses by the 32-bit length; takes a new correlation; whatever it sends decodes to the kind, stage, deadline, trace and pieces it was called with; a send that fails ends it, with a proper prefix out and no cancel; otherwise it ends exactly as the wait does and returns exactly its own joined result; after a failed wait, and only then, it appends its cancel, exactly if the epoch is the attached one and a slot is free; a slot that faults crashes it, with no cancel |
| ModuleCaller.CancelIsLost | server-go/bus/module_caller.go:91-95 | a one-fragment request that fills the ring's last slot, then the deadline: the call ends as past its deadline, without its cancel |
| ModuleCaller.CrashSendsNoCancel | server-go/bus/client.go:299-302 | with a faulting slot next in the inbound ring a call whose request goes out crashes, and nothing follows the request |
| ModuleCaller.LengthCheckExactly | server-go/bus/module_caller.go:101 | the comparison after the conversion is the comparison with the limit exactly below 2^32 and for lengths whose low 32 bits exceed the limit |
| ModuleCaller.HugeRequestIsSent | server-go/bus/module_caller.go:101 | a request of 2^32 bytes is not refused but sent like any other |
| ModuleCaller.OtherCallsAreInvisible | server-go/bus/module_caller.go:107-108 | whatever arrives for one call of a caller, however late, any other call fewer than 2^64 calls away ends as if it had not arrived, and returns no byte of it |
| RuntimeLoop.ValidateConfig | server-go/bus/module_runtime.go:112-128 | accepts exactly configurations with a socket path, a module name, a principal and a nonempty stage list without zero fields or repeated kinds, and gives the table the list spells |
| RuntimeLoop.RunHandler | server-go/bus/module_runtime.go:196-221 | a set flag gives status 2; else a deadline reached on a readable clock 3; else an unknown status or a response over 16 MiB 5; else another failure as it is, all without a body; else OK with the response |
| RuntimeLoop.Runtime.Triage | server-go/bus/module_runtime.go:345-427 | decides every polled event, and changes the tables, as the state machine does, whose decisions `RuntimeDecisions.EventDecided` and `RuntimeDecisions.NoRequest` spell out |
| RuntimeLoop.Runtime.OnFragment | server-go/bus/module_runtime.go:375-399 | assembles, refuses or completes a fragment, as spelled out there |
| RuntimeLoop.Runtime.OnComplete | server-go/bus/module_runtime.go:400-427 | deadline, then handler, then job limit, then the job, with the statuses and reply fields spelled out there |
| RuntimeLoop.Runtime.OnEvent | server-go/bus/module_runtime.go:345-427 | one event and its refusal, if any, is one step of the state machine |
| RuntimeLoop.Runtime.SendReply | server-go/bus/module_runtime.go:223-284 | after a sent reply the outbound log is exactly the fragments of all replies; after a failed one the loop has stopped |
| RuntimeLoop.Runtime.WorkerDecides | server-go/bus/module_runtime.go:196-219 | a worker's decision, taken on the flag and the clock as it loads them, is one step |
| RuntimeLoop.Runtime.WorkerSends | server-go/bus/module_runtime.go:220 | its send is another, and always finds room |
| RuntimeLoop.Runtime.FinishWork | server-go/bus/module_runtime.go:286-291 | receiving and answering a result is one step |
| RuntimeLoop.Runtime.AnswerDone | server-go/bus/module_runtime.go:303-313 | ends with the channel empty and every result answered, or stopped by a reply that could not be sent |
| RuntimeLoop.Runtime.Shutdown | server-go/bus/module_runtime.go:314-323 | terminates under any behaviour of the workers, stopped, with no job, worker or result left and no reply sent |
| RuntimeLoop.Runtime.Turn | server-go/bus/module_runtime.go:302-428 | one turn is a run of the state machine over exactly the events polled, and comes to what the source makes of it: the channel emptied first; then, the context over, stopped with nothing left and no further reply; the host gone or a faulty slot, stopped; a readable slot, exactly its event handled at that time; no slot, nothing |
| RuntimeLoop.Runtime.LookAndPoll | server-go/bus/module_runtime.go:326-428 | the half of it after the channel: the epoch looked at twice, as the host publishes it, then the poll |
| RuntimeLoop.Runtime.Serve | server-go/bus/module_runtime.go:293-429 | the whole service is a run of the state machine over exactly the events polled; while it serves, the outbound log is exactly the fragments of its replies, every turn has found the host alive and the context open, and each has taken a slot as long as those there at the start lasted; it stops only for a reply that failed, a host gone, a faulty slot, or the context over with nothing left |
| RuntimeInvariant.StepKeepsInv | server-go/bus/module_runtime.go:286-429 | every step keeps: at most 16 assemblies and 16 jobs, disjoint; works in workers plus results in the channel are exactly the jobs, each once; while draining every job is flagged |
| RuntimeInvariant.RunKeepsInv | server-go/bus/module_runtime.go:286-429 | so does every run |
| RuntimeInvariant.NoWorkerBlocks | server-go/bus/module_runtime.go:293-429 | in every reachable state, also after the loop returned early, each running worker finds room in the channel |
| RuntimeInvariant.TakeInFlight | server-go/bus/module_runtime.go:288 | deleting the correlation of a received result removes the very work it belongs to |
| RuntimeInvariant.DrainCounts | server-go/bus/module_runtime.go:319-322 | after the context ended, results received plus jobs left is the number of jobs there were, and nothing is sent |
| RuntimeInvariant.DrainProgress | server-go/bus/module_runtime.go:319-322 | until the drain ends, a receive, a decision or a send is possible, and each reduces the work left |
| RuntimeInvariant.ShutdownIsComplete | server-go/bus/module_runtime.go:314-323 | every in-flight work is flagged, exactly one result per job is received, and nothing is left |
| RuntimeInvariant.CancelledResult | server-go/bus/module_runtime.go:210-212 | a work whose flag is set before its worker loads it is decided Cancelled without a body |
| RuntimeInvariant.DecidedStays | server-go/bus/module_runtime.go:210-220 | a decision once taken stays as it is until it is sent, whatever happens meanwhile |
| RuntimeInvariant.LateCancelComesTooLate | server-go/bus/module_runtime.go:210-220 | a cancel handled between the load of the flag and the send sets the flag and changes nothing: the reply is what was decided, an OK one with its body |
| RuntimeHistory.RepliesAccounted | server-go/bus/module_runtime.go:345-427 | while the loop runs, replies to a correlation plus its job in flight grow exactly with its request events that were not absorbed as "more" fragments |
| RuntimeHistory.EveryRequestAccounted | server-go/bus/module_runtime.go:293-429 | the same from the start: every such event has been answered once or is the job in flight |
| RuntimeHistory.AcceptedFragment | server-go/bus/module_runtime.go:357-427 | what absorbing or starting says about the event: same kind, stage, deadline and trace, within the limit |
| RuntimeHistory.RunKeepsAssembly | server-go/bus/module_runtime.go:375-399 | over every run an assembly is the in-order concatenation of the fragments absorbed since its correlation was last cancelled, refused or completed |
| RuntimeHistory.HandlerBody | server-go/bus/module_runtime.go:395-427 | a handler is started with exactly those fragments and the final one; bytes from before a cancel or refusal never reach it |
| ValidReplies.DeliveredIsIdentified | server-go/bus/wire.go:150-156 | whatever Poll delivers passed Validate, so a request names a correlation |
| ValidReplies.RepliesAreValid | server-go/bus/module_runtime.go:223-291 | in every run from a validated table over delivered events, the next reply has a nonzero correlation and stage and all its fragments have valid envelopes and frames |
| ValidReplies.RunKeepsPlain | server-go/bus/module_runtime.go:225-230 | no reply other than OK ever carries a body, none exceeds the limit |
| RuntimeDecisions.EventDecided | server-go/bus/module_runtime.go:357-427 | the exact condition for each refusal of a request event: status 4 for one that fits no stage, assembly or job state, 5 for a full table, an oversized body or full jobs, 3 past its deadline, 1 without a handler; each under the event's kind and correlation, for its stage (or 1), with its trace (or 0 if invalid) and no body; every other one is absorbed or becomes a job with its kind, stage, deadline, trace and body |
| RuntimeDecisions.NoRequest | server-go/bus/module_runtime.go:345-356 | a cancel drops the assembly and flags the job of its correlation; any other event without the request flag does nothing |
| RuntimeDecisions.WorkDecided | server-go/bus/module_runtime.go:196-219 | what a worker decides in any state, by flag, deadline, clock, status and length |
| RuntimeDecisions.JobsReply | server-go/bus/module_runtime.go:286-291 | the one reply to a job has the kind, correlation, stage and trace of its work, and the status and body its worker decided; deadline exceeded without a body if it decided at or past its deadline |
| RuntimeDecisions.OkIsEarned | server-go/bus/module_runtime.go:196-291 | over every run from the start: each OK reply is that of a job whose worker decided it uncancelled and in time on a handler that returned OK, and carries exactly that handler's response |
| RequestArrival.FragmentDecided | server-go/bus/module_runtime.go:357-427 | the next fragment of a request is absorbed or starts the job exactly when there is room for it, and is refused otherwise |
| RequestArrival.RequestArrives | server-go/bus/module_runtime.go:345-427 | a request whose fragments arrive in order, interleaved with anything, is handed to at most one worker; the worker gets the caller's bytes exactly when there is room at each fragment |
| RequestArrival.RefusalCutsShort | server-go/bus/module_runtime.go:368-399 | a two-fragment request whose first fragment meets a full table reaches the handler as its second fragment alone |
| RequestArrival.RequestCutShort | server-go/bus/module_runtime.go:345-427 | the full table is within reach: from a module that has just started, first fragments of sixteen requests, the two of another and one cancel hand a worker the second alone |
| ReplyArrival.JobIsReplied | server-go/bus/module_runtime.go:286-291 | while a job is in flight its correlation gets no reply; the one that ends it is what its worker returned, uncancelled |
| ReplyArrival.ResultIsReplied | server-go/bus/module_runtime.go:302-313 | a result in the channel becomes exactly one reply |
| ReplyArrival.QuietRun | server-go/bus/module_runtime.go:293-429 | a correlation without job and events gets neither |
| EndToEnd.RequestIsAnswered | server-go/bus/module_runtime.go:293-429 | the module's half: given room, the worker gets the request and its return is the only reply |
| EndToEnd.ReplyIsRead | server-go/bus/module_caller.go:169-223 | the caller's half: a whole reply, cut for any budget and read among anything, gives back its body or its status |
| EndToEnd.LogCarriesRequest | server-go/bus/module_caller.go:134-163 | after a send under a fresh correlation the log holds exactly the request's fragments of it |
| EndToEnd.OnlyReplies | server-go/bus/module_runtime.go:223-275 | the packets of one correlation on the wire are the fragments of its replies |
| EndToEnd.CallRoundTrip | server-go/bus/module_caller.go:94-223 | the same over packet streams and an order-preserving relay that may rename correlations: the worker is handed exactly the request, reading the relayed replies gives exactly what the worker's decision makes of the handler's result |
| EndToEnd.ResponseArrives | server-go/bus/module_runtime.go:196-221 | an OK response within the limit and in time comes back byte for byte |
| RefusalArrival.RefusalIsRead | server-go/bus/module_runtime.go:223-291 | if an event of a correlation not answered yet is refused, its caller's wait fails with just that status, whatever the module does afterwards and whatever else arrives |
| RefusalArrival.RefusedRoundTrip | server-go/bus/module_runtime.go:368-427 | the other half of CallRoundTrip: without room at some fragment the call fails with what the first such fragment lacked, 5 for a full table or full jobs, 3 for time, 1 for a handler |
| Endpoints.WholeReplyEndsCall | server-go/bus/module_caller.go:118-130 | a Call whose inbound log holds a whole reply of its correlation, among anything, returns that body if it is OK and that status if not |
| Endpoints.CallComesBack | server-go/bus/module_caller.go:94-223 | a Call and a Runtime over their own clients, their logs related by the relay: the worker was handed exactly the request, under the kind, stage, deadline and trace given to Call, and Call has ended as the worker's decision says: late 3, unknown status or oversized 5, any other failure as such, OK with its response byte for byte |
| Endpoints.CallIsRefused | server-go/bus/module_caller.go:94-223 | and where a fragment found no room, Call has ended with the status of the first that did not |
| Progress.RestIsHanded | server-go/bus/module_runtime.go:345-427 | fragments delivered in time to an otherwise idle module with a handler always end in the job |
| Progress.UndisturbedCall | server-go/bus/module_runtime.go:293-429 | for every kind, stage, deadline, trace, request and response within the limits and in time, and any budgets, the undisturbed run hands the worker exactly these, meets every condition of the end-to-end statement, and the caller reads the response |
| TriggerGo.ContainsToken | server-go/modules/skills/skills.go:54-71 | finds the needle exactly when it is a maximal run of token bytes |
| TriggerGo.QuotedPatternsMatch | server-go/modules/skills/skills.go:73-106 | with quoted patterns: some one of them, by its first 127 bytes, stands in the subject; with none: the subject is a token |
| TriggerGo.CutHeader | server-go/modules/skills/skills.go:122-130 | slicing and searching the tail finds the header that searching the whole finds |
| TriggerGo.TriggerMatches | server-go/modules/skills/skills.go:117-162 | decides what the front matter means under Go's trimming |
| TriggerC.ContainsToken | src/modules/skills/skill_trigger_policy.c:7-25 | the pointer scan finds the needle exactly when it is a maximal run of token bytes |
| TriggerC.QuotedPatternsMatch | src/modules/skills/skill_trigger_policy.c:27-61 | the pointer scan with its 128-byte buffer decides what the Go one does |
| TriggerC.FindValue | src/modules/skills/skill_trigger_policy.c:63-81 | the value of a key under C's trimming |
| TriggerC.KeyWithinLine | src/modules/skills/skill_trigger_policy.c:117-119 | comparing nine bytes past the end of a line finds what the line starts with |
| TriggerC.ScanIsLines | src/modules/skills/skill_trigger_policy.c:102-144 | the memchr scan reads the lines that splitting gives |
| TriggerC.MatchesContent | src/modules/skills/skill_trigger_policy.c:83-147 | decides what the front matter means under C's trimming |
| TriggerEntries.MatchesMeans | server-go/modules/skills/skills.go:136-161 | what the scan of either dialect comes to, without the scan: a content matches exactly if it has a triggers block whose entries name the tool or no tool, and have a pattern for the subject or no pattern |
| TriggerLaws.WordEnds | server-go/modules/skills/skills.go:49-71 | a word is a token of a value that starts with it exactly if what follows is no letter, digit, underscore, dash or dot |
| TriggerLaws.WholeToken | server-go/modules/skills/skills.go:54-71 | a value made of such bytes names itself and nothing else |
| TriggerLaws.QuotedPattern | src/modules/skills/skill_trigger_policy.c:27-61 | a pattern between either kind of quote matches exactly if its first 127 bytes stand in the subject |
| TriggerLaws.BarePattern | src/modules/skills/skill_trigger_policy.c:27-61 | without quotes, or with nothing between them, exactly if the subject is a token of it |
| TriggerLaws.KeyBehind | src/modules/skills/skill_trigger_policy.c:63-81 | in either dialect a key is read behind each of the six ASCII white space characters and behind no other ASCII character |
| TriggerLaws.ValueTrimmed | server-go/modules/skills/skills.go:108-115 | its value is trimmed of them at both ends |
| TriggerLaws.WideBlank | server-go/modules/skills/skills.go:108-115 | of the three-byte UTF-8 characters Go trims exactly U+1680, U+2000 to U+200A, U+2028, U+2029, U+202F, U+205F and U+3000 |
| TriggerLaws.NarrowBlank | server-go/modules/skills/skills.go:108-115 | and of the two-byte ones exactly U+0085 and U+00A0 |
| TriggerLaws.BlockIs | server-go/modules/skills/skills.go:136-145 | the entries of a block are the indented lines from the one that begins with `triggers:` to the next unindented one, whatever stands before and after |
| TriggerLaws.ToolEntry | server-go/modules/skills/skills.go:146-150 | a block whose one entry is `tool:` matches exactly the tools its value names |
| TriggerLaws.PatternEntry | server-go/modules/skills/skills.go:151-157 | with `arg_pattern:` or `path_pattern:`, exactly the subjects its value matches |
| TriggerLaws.OtherEntry | server-go/modules/skills/skills.go:146-158 | with any other entry, everything |
| TriggerLaws.FirstFence | server-go/modules/skills/skills.go:118-122 | the first line is three dashes and a newline or a carriage return; what follows the return makes no difference, and any other character there means no match |
| TriggerLaws.NoClosingFence | server-go/modules/skills/skills.go:122-130 | without a later line that begins with three dashes nothing matches |
| TriggerMargins.TrimsAgreeExactly | server-go/modules/skills/skills.go:108-115 | the two ways to trim agree exactly when what ASCII trimming leaves neither begins nor ends with a wider white space character |
| TriggerMargins.LineValueAgreesExactly | src/modules/skills/skill_trigger_policy.c:63-81 | Go and C give a key the same value, or none, exactly when Go does not find the key behind a wider white space character where C stops, and C's value neither begins nor ends with one |
| TriggerAlike.AlikeSteps | server-go/modules/skills/skills.go:146-158 | a line that is read alike leaves both scans in the same state, whatever went before and whatever is asked |
| TriggerAlike.OthersDiffer | server-go/modules/skills/skills.go:146-158 | any other line is decided differently for some tool and subject |
| TriggerAlike.PatternsAlike | src/modules/skills/skill_trigger_policy.c:27-61 | the patterns of a line are the same for every subject if all quotes are closed, if both ways to trim the last text leave the same first 127 bytes, or if an earlier pattern is found wherever the findable one of the two is |
| TriggerAlike.PatternsDiffer | src/modules/skills/skill_trigger_policy.c:27-61 | otherwise some subject tells them apart |
| TriggerParity.AlikeIsDecidedAlike | docs/modules/skills.md:18-20 | Go and C decide the same, for every tool and subject, on every content each of whose entry lines is read alike |
| TriggerAgreement.DecidedAlikeExactly | docs/modules/skills.md:18-20 | on any content the two decide the same for every tool and subject exactly if it has no triggers block; or its entries name the same tools and everything either rule looks for is within the other; or under both the tools or the patterns spell nothing that could match |
| TriggerAgreement.SameSubjectsExactly | docs/modules/skills.md:18-20 | the same subjects are accepted exactly if both rules give patterns or neither does, each pattern of one contains a pattern of the other, and each bare token of one does or is a bare token of the other |
| TriggerAgreement.SameToolsExactly | docs/modules/skills.md:18-20 | the same tools are accepted exactly if the same are named, and under one rule none at all only if under the other |
| TriggerAgreement.RejectsExactly | docs/modules/skills.md:18-20 | no tool is accepted exactly if tool entries hold no token byte; no subject is exactly if pattern entries hold neither a nonempty quoted pattern nor a token byte |
| TriggerAgreement.EntriesOfText | server-go/modules/skills/skills.go:136-140 | the entries of a C string are lines without newline and NUL |
| TriggerParity.OneEntryExactly | docs/modules/skills.md:18-20 | on a block of one entry line they decide the same for every tool and subject exactly if that line is read alike |
| TriggerParity.SameValuesAgree | docs/modules/skills.md:18-20 | they decide the same if each entry line gives each key the same value under both rules |
| TriggerParity.MatchersAgree | docs/modules/skills.md:18-20 | and if no white space character outside ASCII stands between the fences, whatever the rest of the content holds |
| TriggerParity.AsciiIsPlain | docs/modules/skills.md:18-20 | all ASCII content is such content |
| TriggerParity.Both | docs/modules/skills.md:18-20 | both implementations, called with the same input, return their decisions, the same ones if it is read alike or ASCII |
| TriggerParity.WitnessDisagrees | docs/modules/skills.md:18-20 | for a concrete content with a no-break space they disagree |
| TriggerWire.ParseIsInverse | src/modules/skills/include/aimee/skills/module_api.h:84-137 | a body parses to a request exactly when the request can be carried and the body is its encoding |
| TriggerWire.ParseAt | src/modules/skills/include/aimee/skills/module_api.h:106-135 | a request by its bytes: magic, version 1, three lengths at 8, 12 and 16 within 100 KiB, 1 to 255 bytes and 1 MiB, and the texts from byte 20 on, without a NUL |
| TriggerWire.ResponseIsInverse | src/modules/skills/include/aimee/skills/module_api.h:139-158 | the same for responses |
| TriggerWire.RequestEncode | src/modules/skills/include/aimee/skills/module_api.h:70-104 | encodes exactly what can be carried and fits; otherwise writes nothing |
| TriggerWire.RequestDecode | src/modules/skills/include/aimee/skills/module_api.h:106-137 | decodes exactly what parses |
| TriggerWire.HandleGo | server-go/modules/skills/skills.go:164-191 | answers every body as the request it parses to demands |
| TriggerWire.HandleC | src/modules/skills/module_adapter.c:26-63 | the same, given room for the response and memory |
| TriggerWire.HandlersAgree | src/modules/skills/module_adapter.c:26-63 | both handlers give every body the same answer, unless it carries a content with an entry line that is not read alike |
| TriggerWire.WireRoundTrip | src/modules/skills/include/aimee/skills/module_api.h:84-158 | a decision asked over the wire is the decision |
| Rollback.CheckSnapshotId | src/modules/skills/skill_rollback.c:18-28 | accepts exactly nonempty ids of at most 128 permitted characters without a double dot, other than a dot |
| Rollback.IdIsOneComponent | src/modules/skills/skill_rollback.c:18-28 | an accepted id is a single path component |
| Rollback.FileSystem.RemoveTree | src/modules/skills/skill_rollback.c:60-84 | success means the path is gone; nothing else ever changes; without faults it fails exactly on a tree with a directory whose listing is cut short |
| Rollback.FileSystem.RemoveEntries | src/modules/skills/skill_rollback.c:72-82 | the named entries are gone if it succeeds, all others are as they were |
| Rollback.FileSystem.CopyTree | src/modules/skills/skill_rollback.c:114-142 | nothing changes but the target and where links met there lead; if nothing that would be written meets a link, device, pipe or socket, only the target changes, success means that what is read of the source, without `.snapshots` at any depth, has been merged with what was there, and without faults it succeeds exactly when that can be; without faults a write goes astray exactly otherwise |
| Rollback.FileSystem.CopyFile | src/modules/skills/skill_rollback.c:86-112 | a copy of a regular file, or at most a torn one, to where opening the target leads, links followed; a file copied onto itself is emptied |
| Rollback.FileSystem.Mkdir | src/modules/skills/skill_rollback.c:122 | makes a directory where the way to the path leads, links on the way followed, and takes anything already there, a link too, for success |
| FileTree.LinkOpens | src/modules/skills/skill_rollback.c:91 | opening a link to a file that is there opens that file |
| FileTree.GoesStraight | src/modules/skills/skill_rollback.c:91 | a path without links on the way leads to itself, if anywhere |
| Rollback.FileSystem.MkdirAll | src/modules/skills/skill_rollback.c:39-58 | by a way without links: makes the directories down to the path, or as many as can be made; without faults it succeeds exactly when nothing above the path is anything but a directory |
| Rollback.FileSystem.ClearSkills | src/modules/skills/skill_rollback.c:162-179 | empties the skills directory but for `.snapshots` and the entries its listing does not give |
| Rollback.FileSystem.CopySnapshot | src/modules/skills/skill_rollback.c:181-197 | merges what is read of the snapshot into the skills directory, with the same account of what is in the way |
| Rollback.FileSystem.RollbackSnapshot | src/modules/skills/skill_rollback.c:144-199 | whatever fails, nothing changes but the skills directory and where writes by way of links left in it land; if nothing left behind is in the way, nothing outside the skills directory and nothing in `.snapshots` changes, success means what was read of the snapshot merged with what was left, and without faults it comes exactly when that can be; without faults, once the listed skills are gone, a write goes astray exactly otherwise; success is the restored tree exactly when nothing is in the way and all of it was refreshed; without listings cut short all of this is unconditional |
| Rollback.SuccessMeans | src/modules/skills/skill_rollback.c:166-198 | a link or other special file in the way is there after any copy, so the result is not the restored tree |
| Rollback.NothingInTheWay | src/modules/skills/skill_rollback.c:166-179 | with a complete listing of the skills nothing that is left can be in the way |
| Rollback.LinkIsFollowed | src/modules/skills/skill_rollback.c:91 | opening the place of a link left among the skills opens what it leads to |
| Rollback.RestoreGoesAstray | src/modules/skills/skill_rollback.c:166-198 | if reading the skills directory fails at once, a link left there lets the restore overwrite a file anywhere, outside the skills directory or in a snapshot, and report success; a snapshot file it leads back to is emptied |
| Rollback.RestoredExactly | src/modules/skills/skill_rollback.c:166-195 | if nothing is in the way, success means the restored tree exactly when each skill left behind is replaced by the snapshot or equals its part, and what was not read was there already; with a complete listing of the skills, exactly when every directory of the snapshot was listed to its end |
| Rollback.EmptyRestoreSucceeds | src/modules/skills/skill_rollback.c:184-198 | if reading the snapshot directory fails at once, the restore clears the skills, copies nothing and reports success |
| Rollback.StaleSkillSurvives | src/modules/skills/skill_rollback.c:167-179 | if reading the skills directory fails at once, a skill the snapshot does not have outlives a restore that reports success |
| Rollback.NoCutsNoMatter | src/modules/skills/skill_rollback.c:144-199 | without listings cut short nothing is in the way, success is the restored tree, and without faults it comes exactly on an acceptable id of an existing snapshot of files and directories |
| RestorePlan.MergesToPruned | src/modules/skills/skill_rollback.c:114-142 | what is read, merged with what was there, is the pruned tree exactly under a condition on listings and old entries that recurs down the tree |
| RestorePlan.InTheWay | src/modules/skills/skill_rollback.c:114-142 | what is in the way of a copy is a link or special file at a path where the source has a file or directory |
| Rollback.RestoredContents | src/modules/skills/skill_rollback.c:144-199 | after a restore every path that avoids `.snapshots` sees what the snapshot holds, every path through the top `.snapshots` and every path elsewhere sees what it saw before |
| Rollback.SecondRollbackChangesNothing | src/modules/skills/skill_rollback.c:144-199 | restoring the same snapshot again changes nothing |
| RestorePlan.PruneAt | src/modules/skills/skill_rollback.c:129-139 | pruning hides exactly the paths through a `.snapshots` |
| Patch.GapsAreLeftmost | src/modules/skills/skill.c:1550-1562 | the replaced places are leftmost and do not overlap; with replace_all none is left in the last gap, otherwise there is at most one |
| Patch.LeftmostCutIsUnique | src/modules/skills/skill.c:1550-1562 | there is no other such cut of the content |
| Patch.HitsIffOccurs | src/modules/skills/skill.c:1565-1568 | something is replaced exactly when the old string occurs |
| Patch.PatchedText | src/modules/skills/skill.c:1550-1562 | the length changes by the difference of the strings per hit; replacing a string by itself changes nothing |
| Patch.ReplaceLoop | src/modules/skills/skill.c:1545-1562 | terminates with the content's gaps joined by the new string, and the number of hits |
| Patch.RestIsDropped | src/modules/skills/skill.c:1545-1562 | what follows the first NUL of a skill's file is not part of any patched text |
| Patch.Replace | src/modules/skills/skill.c:1533-1569 | refused without the skill or without both strings, not found exactly when the old one does not occur before the first NUL, patched otherwise |
| Lifecycle.ThatSkill | src/modules/skills/skill.c:1575-1593 | a turn only ever moves a text to a free archive place; a pinned skill stays as it is |
| Lifecycle.OnlyThatSkill | src/modules/skills/skill.c:1656-1699 | a turn touches no other skill |
| Lifecycle.PassKeeps | src/modules/skills/skill.c:1645-1704 | over a pass pinned skills and archive entries stay as they are and no text is lost or changed |
| Lifecycle.AtMostOneOutcomeEach | src/modules/skills/skill.c:1656-1699 | each considered skill adds to at most one other counter |
| Lifecycle.PassSettles | src/modules/skills/skill.c:1656-1699 | after a pass without errors each considered skill is gone or has nothing to do |
| Lifecycle.SecondPassDoesNothing | src/modules/skills/skill.c:1645-1704 | a second pass at the same time, after an error-free one that considered every skill, archives, marks and changes nothing, in any directory order and whatever fails |
| Lifecycle.Skills.ProjectList | src/modules/skills/skill.c:1616-1643 | lists distinct skills with names of 1 to 63 characters in any order, at most 64, all of them if there are fewer |
| Lifecycle.Skills.ArchiveSkill | src/modules/skills/skill.c:1575-1593 | succeeds exactly on an unpinned skill with a valid name, a free archive place and no fault; writes the record and then moves the file, and fails between the two if the move does |
| Lifecycle.Skills.RecordMutation | src/modules/skills/skill.c:1275-1334 | creates a missing usage record at this moment, and otherwise keeps its pin, creation and last use; stamps it, sets the state and bumps the patch count; changes nothing if it cannot be written |
| Lifecycle.Skills.Turn | src/modules/skills/skill.c:1658-1698 | a pinned skill and one of unknown age are left alone, then the archive threshold is tried, then the stale one, on the last use or else the creation (`LifecycleOutcome.TurnFate`); a failed step counts as an error |
| Lifecycle.Skills.Apply | src/modules/skills/skill.c:1645-1704 | the pass is its turns one after the other over the listing; `LifecycleOutcome.PassFate` says what that is for each skill |
| LifecycleOutcome.PassFate | src/modules/skills/skill.c:1656-1699 | what becomes of each skill a pass lists, in seconds and from its record: last used, or if never used created, at least archiveAfter*86400 s ago, it is archived if its name is valid, its place free and nothing fails; at least staleAfter*86400 s ago, marked stale once; pinned or otherwise, left alone |
| LifecycleOutcome.PassUntimed | src/modules/skills/skill.c:1656-1699 | a skill without a readable time is left alone |
| LifecycleOutcome.UseProtects | src/modules/skills/skill.c:1673-1698 | a skill used less than archiveAfter days ago is still there after the pass whenever it was created, its record changed only to stale, exactly from staleAfter days on |
| LifecycleOutcome.DisuseArchives | src/modules/skills/skill.c:1673-1698 | an unpinned, validly named listed skill with a free archive place is archived by a pass without faults exactly when archiving is on and its last use, or else its creation, is that many days back |
| LifecycleOutcome.CountsAreTrue | src/modules/skills/skill.c:1656-1699 | the pass counts as archived, stale and pinned exactly as many skills as are gone, newly stale and pinned |
| SkillName.SlugIsValid | src/modules/skills/skill.c:892-922 | every tool with a name gets a valid skill name |
| SkillName.SlugOfSlug | src/modules/skills/skill.c:892-922 | the slug of a slug is that slug |
| SkillName.SlugKeepsLetters | src/modules/skills/skill.c:900-918 | the slug of a name that fits loses no letter or digit, keeps their order and has them in lower case; of a longer name it keeps the first ones |
| SkillName.SlugOfTwoWords | src/modules/skills/skill.c:908-918 | one or two characters between two words become one dash, or two if the second is an underscore, a dash or a dot |
| SkillName.MakeSlug | src/modules/skills/skill.c:892-922 | the slug the two loops build, cut at the name limit and without trailing dashes, is the one the two laws above are about |

## Left out

- The host that relays frames between clients: `EndToEnd` takes a relay as an assumption. It delivers the packets of one correlation completely and in order, possibly under another correlation, and promises nothing about the rest.
- The two rings of a client are separate byte arrays here; in the source they are two regions of one mapping. That the regions do not overlap is taken for granted.
- A client's slot size equals that of both its rings; the attach handshake that establishes it is not modelled.
- Waiting, clocks, the context, arrivals, the slots the host takes and the epochs it publishes are inputs (`HostMove`, `HostStep`, `Wait`, `Tick`), taken one after the other at the points where the code looks at them: before each fragment, between two polls, around each attempt to publish a reply, before each look at the epoch. What the host does elsewhere is covered as far as it can be moved to the next such point; a behaviour is finite.
- Atomic loads and stores are sequentially consistent; weaker memory orders are not modelled.
- An event's payload is taken as a value when it is polled. The source keeps a view of the slot until the next `Poll`; `RingMachine.HeldSlotIsStable` is the reason why that is the same.
- The interfaces through which the caller and the runtime reach a client are replaced by the client itself.
- RuntimeLoop.Runtime.Serve: a slot that faults ends the process in the source, its workers included; here it ends the loop. The source's loop has no end of its own; here a service is a finite number of turns. Workers decide and send between two looks into the channel, and in the shutdown between two receives; decisions and sends at other moments are covered by the state machine, which interleaves them anywhere.
- A request mixed with a cancel or with other events of its own correlation is outside the end-to-end statement; what a handler then gets is `RuntimeHistory.HandlerBody`.
- Arena payloads: the placement check is modelled, the lease table is not.
- Sockets, descriptor passing, mapping, heartbeats, signals, logging and the detail strings of failed stages.
- The review-nudge decision (`handleContext`, `handle_review`): one modulo test on two numbers.
- TriggerWire.HandleC: memory allocation succeeds or fails as a whole; freeing is not modelled.
- `isspace` is that of the C locale.
- Trigger text is searched by one leftmost search function that stands for `bytes.Index`, `bytes.Contains`, `strstr`, `strchr` and `memchr`.
- Rollback: a listing gives some of the names that were there when the directory was opened, in any order; path buffers are long enough; the way to the snapshot directory holds no link; no two paths share a file, so a hard link left among the skills is not covered; links hold absolute paths; and no one else changes the tree meanwhile. On Windows the source follows links where the model does not.
- Rollback.FileSystem.CopyFile: opening a device, pipe or socket fails here; the source would write to it or wait. A restore does this only if such a file is in the way.
- Rollback.FileSystem.CopyTree: once a write has gone astray, only what every copy keeps is stated, not the tree it leaves; that can depend on the order of the listings.
- Patch.Replace: the text that is to be written; the lint and write that follow it in the source, which can still refuse it, are not modelled, nor is running out of memory.
- Lifecycle: a project of flat skill files; skills kept as directories with a manifest, and user or bundled skills behind a project name, are not modelled. Usage records are read and written whole; their JSON, the file lock and the temporary file are not modelled.
- Lifecycle.SecondPassDoesNothing: a pass lists at most 64 skills in directory order, so with more than that a second pass may come to skills the first did not consider; the statement therefore asks that the first considered all.
- Lint, poison checks, the evaluation gate, import and export, autostub text, review orchestration and error strings.
