# A model of the bridge: message queue, CAN decoder, vehicle mapper

The bridge carries a car's data to a head unit. Three of its parts are modelled here and proved
correct: the shared-memory queue that messages travel through, the decoder that turns CAN frames
into signal values, and the mapper that turns signal values into the state of the car.

## The queue (`bridge/msgq`)

One publisher and up to fifteen subscribers share a ring of bytes and a header of atomic words. A
message is a frame: an eight-byte size tag, the payload, padding. A position is a number of laps
and an offset, packed in one word. When a frame does not fit before the end, the publisher leaves
a size tag of -1 and starts again at offset 0. Before it overwrites anything it clears the valid
flags of the subscribers standing there; a subscriber checks its flag, copies, and checks again.

The central idea of the proof is in `Ring`: a *history* of every frame published and of where each
lap began and ended, and what it means that the bytes of an old lap "are still there" although a
later lap may have covered some of them. A subscriber with its flag set stands on an intact frame it
has not read, on an intact -1 tag, or at the write pointer's offset. That last case is the subtle
one: the queue compares offsets only, so a subscriber exactly one or more laps behind keeps its flag
and sees an empty queue. Order and integrity survive this; completeness does not.

* `Ring`: layout, tag codec, history, positions, and what each move of the publisher does to them.
* `Interleaving`: every load and store is one step, `memcpy` moves single bytes in any order, any
  number of subscribers; the inductive invariant and safety in every sequentially consistent
  interleaving.
* `GapFreedom`: in the same machine, no message is skipped while a subscriber is settled.
* `Queue`, `QueueRuns`: each operation as one atomic step, runs of any mix of operations by any
  number of processes, with registration, eviction, take-over, conflation and readiness.
* `QueueGaps`: exactly when a receive returns the next message and a send leaves it owed, what "all readers
  updated" means, and a run that loses a lap.
* `Msgq`: the operations as methods on mutable memory, with the source's packed words and loops, each
  proved to compute the function of the same name in `Queue`.
* `Registration`: when registering while others register amounts to registering in one step.

Assumptions: messages are not empty (`Queue.EmptyMessageStrandsReader` says what happens if one is), the ring is
shorter than 2^32 bytes, lap counters do not overflow, and identities are fresh and not 0. In the
step machine the set of subscribers is fixed and resetting one is a single step. The ring starts
out zeroed and with nothing published.

## The decoder (`bridge/dbc`, `bridge/car/can_parsers.h`)

A signal is a run of bits in a frame, little- or big-endian, possibly signed, scaled, and possibly
shown only while another signal, the multiplexor, has a certain value.

* `Bits`, `Extraction`: `get_raw_bits` byte by byte against the reading bit by bit.
* `SignedValues`: sign extension, and a reference encoder that decoding undoes.
* `Masks`: `Msg::mask` is computed by a second traversal; it marks exactly the bits that matter.
* `Messages`: signals and messages as objects edited in place. `update` sorts the signals, rebuilds the
  mask, chooses the multiplexor and rebuilds every link.
* `DbcFile`: the parser as a state machine over lines, against a description of each line's fault
  and of each message's signals that looks only at the lines.
* `CanParsers`: the cache keyed by `message::signal` holds the last definition of each key, agrees with scanning
  the files exactly where a key has one definition, and together with the store of last frames
  with decoding the last matching frame, over every sequence of frames.
* `Digits`, `MessageId`: numbers printed and read back, with the rules of `std::stoul`.

Facts about the code that came out of this: assigning a message to itself loses its signals
(`Messages.Msg.CopyFrom`). An empty signal with flipped position 0 gets 8 as its last bit
(`Extraction.Lsb`). Of several multiplexors the one that comes last in the sort order is used
(`Messages.Msg.Update`), and since its number is then set to 0 the next update may choose another
(`Messages.UpdateTwice`). A file two of whose messages share their name and a signal's name is accepted,
and the cache then answers for both from the one at the higher address (`CanParsers.FileExactIff`,
`CanParsers.WrongSignal`). The mask of a message has bits of signals wider than 64 that no raw bits show
(`Masks.WideSignalOvermasked`). A process that registers while another, having found every slot taken,
evicts everybody is thrown out with the others (`Registration.RegistersInTurnIff`). A parsed address or size is truncated to 32 bits before it is compared with
those already seen (`DbcFile.Truncated`).

## The mapper (`bridge/car/cars/tesla.h`)

* `TeslaVin`: the VIN as a function of everything the bus has shown, and what is true of it.
* `TeslaHold`: fields that keep their last reading, over runs in which the mapper is updated after
  batches of frames. With batches of one frame, as `bridge_decode_can_frame` does it, every field
  holds the reading of the most recent frame that carried it, where carrying is what the DBC says. With
  longer batches, as `processMessage` does it, a reading can be lost; `BatchesMayLose` says exactly when
  and `BatchLosesReading` shows an input. The DBC must define the field under the multiplexor value the
  mapper asks for, with an index none of whose raw values the mapper misjudges (`TestableIff`).
* `TeslaMapper`: the mapper and the decoder that drives it, as objects, proved against both.
* `DecoderRuns`: the decoder opened on DBC lines and driven by frames. `DecoderInputs`: one input followed through.

## Model

| member | source | states |
|---|---|---|
| Interleaving.NoTornReads | bridge/msgq/msgq.cc:236-435 | in every interleaving of the steps of send and receive no assertion of receive fails, no access leaves the ring, and the payloads a subscriber returned are byte for byte a strictly increasing selection of the published messages |
| Interleaving.TagsAreTrue | bridge/msgq/msgq.cc:383-402 | in every interleaving a loaded size tag whose validity check passes is -1 or the true size of a published frame at that offset, one the subscriber has not returned |
| Interleaving.StoresStayInRing | bridge/msgq/msgq.cc:244-309 | in every interleaving the published write offset is a multiple of 8 with room for a wraparound tag behind it, and tag and payload stores end before the end of the ring |
| Interleaving.ReachedOK | bridge/msgq/msgq.cc:236-435 | every reachable state satisfies the inductive invariant: memory holds every frame and tag that nothing later covered, and every valid reader stands on one of them or at the write offset |
| Interleaving.WriterKeeps | bridge/msgq/msgq.cc:244-309 | each sub-step of send (tag, test and clear reader i, publish wrap, test and clear, size, copy a byte, publish) keeps the invariant |
| Interleaving.ReaderKeeps | bridge/msgq/msgq.cc:350-435 | each sub-step of receive (valid, load read, load write, load tag, recheck, hop, skip, copy a byte, confirm, reset) keeps the invariant for that reader, at any state of the writer |
| Interleaving.NextKeeps | bridge/msgq/msgq.cc:236-435 | any step of anyone keeps the invariant |
| Interleaving.ClearsOnlyInTheWay | bridge/msgq/msgq.cc:266-296 | in every interleaving a subscriber loses its flag only after the publisher, looking at its pointer, saw another lap there and an offset beyond the write pointer when wrapping, or inside the frame's area when appending |
| GapFreedom.NoGaps | bridge/msgq/msgq.cc:257-424 | from a reset on, while its flag is set and the writer does not rest on its offset with another lap, a subscriber has received exactly the messages from the reset up to some point, across wraparounds; when it finds nothing, it has them all |
| GapFreedom.NextGapless | bridge/msgq/msgq.cc:236-435 | any step of anyone keeps a settled subscriber exact: its pointer names the next message it is owed |
| Ring.TagRoundTrip | bridge/msgq/msgq.cc:262-301 | a stored 64-bit size tag, -1 included, is read back as written |
| Ring.TaggedKeeps | bridge/msgq/msgq.cc:260-262 | storing the -1 tag leaves every position a valid reader may hold intact |
| Ring.WrappedKeeps | bridge/msgq/msgq.cc:276-279 | publishing the wraparound keeps every position: on a frame, on a tag, at the write offset, in the middle of a receive |
| Ring.SparedKeeps | bridge/msgq/msgq.cc:285-296 | a reader that the second loop leaves valid loses nothing when the area up to `end` is overwritten |
| Ring.PublishedKeeps | bridge/msgq/msgq.cc:299-309 | publishing a frame keeps every position, and a reader at the write offset now stands on the new frame |
| Ring.PublishFrame | bridge/msgq/msgq.cc:299-309 | once tag and payload are stored, publishing makes the frame part of what memory holds |
| Queue.SendKeeps | bridge/msgq/msgq.cc:236-318 | a send keeps the invariant on shared memory and appends exactly its message to the history |
| Queue.SendStands | bridge/msgq/msgq.cc:257-296 | every reader a send leaves valid still stands where everything ahead is intact and unread |
| Queue.Advances | bridge/msgq/msgq.cc:376-397 | a valid reader not at the write offset finds an unread intact frame, or a -1 tag from which it may hop to offset 0 |
| Queue.RecvReceives | bridge/msgq/msgq.cc:350-435 | a receive terminates without failing an assertion and returns nothing or one message not taken before, byte for byte; a conflating one returns the newest and leaves the reader at the write offset |
| Queue.ReadyIffReceives | bridge/msgq/msgq.cc:321-348 | readiness is answered yes exactly when a receive returns a message, and asking makes no difference to it |
| Queue.RejoinOK | bridge/msgq/msgq.cc:186-234 | registering gives the process a slot below `num_readers`, valid, at the write pointer, keeping the invariant |
| Queue.OnlyNewPublisherSends | bridge/msgq/msgq.cc:159-242 | after a take-over exactly the processes carrying the new identity can send, ring and write pointer are as before, and a refused send changes nothing |
| Registration.TakeOverEmpties | bridge/msgq/msgq.cc:159-172 | after a take-over nobody is registered: no flag is set, all readers updated is answered no, and the next fifteen that register get slots 0 to 14 in turn |
| Queue.RawRecvIsRecv | bridge/msgq/msgq.cc:350-435 | on memory that keeps the invariant, a receive that assumes nothing of memory stays inside the ring, ends, and does what the receive above does |
| Queue.EmptyMessageStrandsReader | bridge/msgq/msgq.cc:236-402 | what the next receive of a subscriber that was up to date makes of any message, assuming nothing of memory: it aborts if and only if the message is empty and the ring is not one of 24 bytes written from offset 8, where an empty message wraps round to the subscriber; a message that is not empty it returns |
| QueueRuns.ReceivedInOrder | bridge/msgq/msgq.cc:72-435 | over every run of sends, receives, wraparounds, resets, evictions, take-overs and registrations, each process received a strictly increasing selection of what was sent |
| QueueRuns.SlotsCovered | bridge/msgq/msgq.cc:186-234 | in every reachable state at most 15 readers are registered, a live subscriber's slot is below `num_readers`, and no two share one |
| QueueRuns.CutsOffIff | bridge/msgq/msgq.cc:159-234 | an operation takes a live process's slot if and only if it is a new publisher, or another process registers, by subscribing or because its receive or readiness question finds it cut off, when every slot is taken; and no operation of others gives a slot back |
| QueueRuns.CutOffUntilItActs | bridge/msgq/msgq.cc:159-435 | over every run in which a process that was cut off does nothing itself, it stays cut off |
| QueueRuns.CutOffRejoins | bridge/msgq/msgq.cc:350-359 | a process that was cut off gets nothing from its next receive, which registers it again at the write pointer |
| QueueRuns.EvictedUntilReceive | bridge/msgq/msgq.cc:159-435 | after an eviction or a new publisher and then any operations of other processes, a process's next receive returns nothing and registers it again where the writer then is |
| QueueRuns.ApplyKeeps | bridge/msgq/msgq.cc:159-435 | each operation of any process keeps the whole system's invariant |
| QueueGaps.GetsNextIff | bridge/msgq/msgq.cc:367-424 | a subscriber owed a certain message receives exactly that message, and is then owed the one after it, if and only if the writer is not resting on its offset; otherwise it receives nothing and is owed the same |
| QueueGaps.SendKeepsFlagIff | bridge/msgq/msgq.cc:257-296 | a send leaves a subscriber its flag if and only if what it is owed lies outside what the send overwrites, or the publisher wraps while resting on its offset; written out in offsets, laps and sizes |
| QueueGaps.SendKeepsOwedIff | bridge/msgq/msgq.cc:257-309 | a send that leaves a subscriber its flag leaves it owed the same message, unless it wraps while resting on the subscriber's offset with another lap; then and only then its pointer names no next message at all |
| QueueGaps.SendAdvances | bridge/msgq/msgq.cc:236-318 | when a send goes through, and where it leaves the write pointer: behind the frame in this lap if frame and tag fit, else in the next |
| QueueGaps.KeepsPlaceIff | bridge/msgq/msgq.cc:159-435 | of all that other processes do, exactly an eviction, a new publisher or a send over what it is owed costs a subscriber its slot or flag; nothing else touches its slot, flag or pointer |
| QueueGaps.UpdatedIffNothingOwed | bridge/msgq/msgq.cc:498-506 | all readers are reported updated if and only if there are readers and the pointer of each valid one names no message that was sent but the next one to come; neither a reader lapped exactly nor one that lost messages deceives it |
| QueueGaps.LappedIsNotUpdated | bridge/msgq/msgq.cc:367-506 | a subscriber lapped exactly is told that nothing has arrived while the publisher is told that not all readers are updated |
| QueueGaps.LappedExactlySkips | bridge/msgq/msgq.cc:271-293 | when a send wraps while the writer rests on the offset of a valid subscriber of an older lap, that subscriber keeps its flag and next receives this newest message |
| QueueGaps.LosesALap | bridge/msgq/msgq.cc:271-377 | from a fresh ring of 48 bytes: a run after which a subscriber owed three messages has received only the third, with its flag never cleared |
| Msgq.PackedPointer | bridge/msgq/msgq.h:13-14 | unpacking a packed pointer gives it back |
| Msgq.Handle.InitPublisher | bridge/msgq/msgq.cc:159-172 | the loop and stores leave memory and handle as the atomic operation says |
| Msgq.Handle.InitSubscriber | bridge/msgq/msgq.cc:186-234 | the loop with its compare-and-swap, whatever other processes register between a load and the swap or the eviction that follows it, ends and claims a slot as the atomic operation does on the memory it then finds |
| Registration.RegistersInTurnIff | bridge/msgq/msgq.cc:193-230 | whoever registers in between, in whatever rounds, the outcome is that of registering in one step after all of them if and only if the loop never evicts, or the readers there were and those that had come when it last does make a multiple of fifteen |
| Registration.LateEvictionOustsNewcomer | bridge/msgq/msgq.cc:197-213 | if one process registers between finding every slot taken and the eviction, it is thrown out with the others, which registering in one step would not do |
| Msgq.Handle.ResetReader | bridge/msgq/msgq.cc:72-76 | flag set and read pointer at the write pointer, nothing else changed |
| Msgq.Handle.InvalidateBeyond | bridge/msgq/msgq.cc:266-274 | exactly the registered readers beyond the write pointer from another lap lose their flag |
| Msgq.Handle.InvalidateInside | bridge/msgq/msgq.cc:285-296 | exactly the registered readers inside the area from another lap lose their flag |
| Msgq.Handle.Send | bridge/msgq/msgq.cc:236-318 | send on mutable memory computes the atomic operation, with its refusal and its failing assertion |
| Msgq.Handle.Ready | bridge/msgq/msgq.cc:321-348 | readiness on mutable memory computes the atomic operation |
| Msgq.Handle.Recv | bridge/msgq/msgq.cc:350-435 | receive on mutable memory, with its `goto start` loop, terminates and computes the atomic operation |
| Msgq.Handle.AllReadersUpdated | bridge/msgq/msgq.cc:498-506 | the loop over packed pointers answers the atomic question |
| Extraction.FlipInvolution | bridge/dbc/dbc.h:139 | flipping a bit position twice gives it back, within the same byte |
| Extraction.PosInjective | bridge/dbc/dbc.cc:200-208 | the positions of a signal's bits are all different, in either byte order |
| Extraction.PosSteps | bridge/dbc/dbc.h:139 | little-endian signals run down to their start bit; big-endian ones run from it down to bit 0 of its byte and on from bit 7 of the next |
| Extraction.BitOfFold | bridge/dbc/dbc.cc:161-187 | bit k of the reading, from the most significant, is the frame's bit at the signal's k-th position |
| Extraction.TakeByte | bridge/dbc/dbc.cc:176-183 | one round of the loop takes the next positions in order and then is finished or at the top of the neighbouring byte |
| Extraction.ReadByte | bridge/dbc/dbc.cc:176-183 | one round of the loop, with its shifts, masks and ORs in 64 bits, reads exactly the bits it takes |
| Extraction.FastPath | bridge/dbc/dbc.cc:168-170 | for a signal within one byte, shift and mask give the bit-by-bit reading |
| Extraction.GatherBytes | bridge/dbc/dbc.cc:171-184 | the loop gives the bit-by-bit reading |
| Extraction.GetRawBits | bridge/dbc/dbc.cc:161-187 | fast path and loop give the bit-by-bit reading for either byte order, every start bit and every size, as much of it as a short frame holds, and of more than 64 bits the last 64 |
| SignedValues.InterpretExact | bridge/dbc/dbc.cc:189-198 | below 64 bits, the integer lies in the signal's range and is the one value there whose two's-complement bits these are |
| SignedValues.UnsignedExact | bridge/dbc/dbc.cc:197 | the cast leaves an unsigned signal's value as it is below 64 bits, and at 64 bits if and only if its top bit is clear |
| SignedValues.ExtensionAdds | bridge/dbc/dbc.cc:192-195 | OR-ing the high ones into a 64-bit word adds 2^64 - 2^size |
| SignedValues.GetRawInt | bridge/dbc/dbc.cc:189-197 | the code's extraction, OR and cast give the interpreted integer, wherever the code's shifts are defined |
| SignedValues.RawRoundTrip | bridge/dbc/dbc.cc:161-187 | raw bits read back what a reference encoder wrote, in either byte order |
| SignedValues.SignedRoundTrip | bridge/dbc/dbc.cc:189-198 | any value in a signal's range, written into any frame that holds the signal, is decoded unchanged |
| SignedValues.EncodingInterferesNot | bridge/dbc/dbc.cc:189-198 | writing one signal changes no signal whose bits are disjoint from it |
| Masks.MarkSignal | bridge/dbc/dbc.cc:96-110 | the mask loop sets exactly the bits the signal yields from a frame of the message's size, also for signals that spill past its end |
| Masks.MaskSuffices | bridge/dbc/dbc.cc:96-110 | frames equal on the masked bits give every signal the same raw bits |
| Masks.MaskExact | bridge/dbc/dbc.cc:96-110 | flipping a bit of any frame changes some signal's raw bits if and only if some signal has it among its last 64 bits; the mask has every such bit, and for signals of up to 64 bits no other |
| Masks.WideSignalOvermasked | bridge/dbc/dbc.cc:96-110 | the mask has the first bit of a signal of 72, which no raw bits show |
| Messages.Signal.Refresh | bridge/dbc/dbc.cc:126-131 | ends recomputed, empty receiver named, nothing else changed |
| Messages.Signal.GetValue | bridge/dbc/dbc.cc:133-139 | a value if and only if the multiplexor the link leads to shows the signal's number, and then the physical value |
| Messages.Signal.GetRaw | bridge/dbc/dbc.cc:141-147 | the raw bits under the same condition, whatever the signal's size and sign |
| Messages.WeakOrder | bridge/dbc/dbc.cc:85-88 | the sort's comparison is a strict weak order |
| Messages.BeforeMeans | bridge/dbc/dbc.cc:85-88 | the sort puts multiplexors first, then multiplexed signals, then normal ones, and of a kind goes by multiplex value, start bit and name |
| Messages.StringLessMeans | bridge/dbc/dbc.cc:86-87 | names are compared as a dictionary does |
| Messages.PhysicalRoundTrip | bridge/dbc/dbc.cc:189-198 | any integer of a signal's range, written by a reference encoder, is shown as its multiple by the factor plus the offset |
| Messages.Sort | bridge/dbc/dbc.cc:84-88 | the signals are permuted into that order |
| Messages.Msg.Traverse | bridge/dbc/dbc.cc:90-111 | the first loop refreshes every signal, makes the mask exact, and settles on the last multiplexor |
| Messages.Msg.LinkAll | bridge/dbc/dbc.cc:113-121 | the second loop links exactly the multiplexed signals, and without a multiplexor makes them normal |
| Messages.Msg.Rearrange | bridge/dbc/dbc.cc:77-122 | the signals are the same ones in the sort's order, each updated; the links and the mask are rebuilt from them |
| Messages.UpdateTwice | bridge/dbc/dbc.cc:77-122 | the second of two updates chooses the last multiplexor by start bit and name, and so another one than the first update if and only if some multiplexor comes after that one by start bit and name |
| Messages.ChoiceMovesHere | bridge/dbc/dbc.cc:77-122 | a message with two multiplexors of which the first update chooses one and the second the other |
| Messages.Msg.Update | bridge/dbc/dbc.cc:77-122 | whatever links were there before, afterwards a signal's link is set exactly when it is multiplexed and leads to a multiplexor of this message; the same signals say the same; the chosen multiplexor is the greatest in the order; the mask is exact |
| Messages.Msg.AddSignal | bridge/dbc/dbc.cc:13-17 | the message, updated before or not, gains one new signal and its links are its own; if it was in order no other signal changes |
| Messages.Msg.UpdateSignal | bridge/dbc/dbc.cc:19-26 | the first signal of that name takes everything from another signal, foreign link included, and the links are the message's own again, whether it was updated before or not |
| Messages.Msg.RemoveSignal | bridge/dbc/dbc.cc:28-35 | the first signal of that name is gone, no link leads to it, and the others stay, whether the message was updated before or not |
| Messages.Msg.CopyFrom | bridge/dbc/dbc.cc:37-52 | the copy owns new signals that say what the other's said and links only among them; assigned to itself a message ends up empty |
| Messages.ApplyEdits | bridge/dbc/dbc.cc:13-122 | after any sequence of additions, changes, removals and copies the message is in order |
| Messages.Pigeonhole | bridge/dbc/dbc.cc:66-75 | if the first n generated names are all taken there are at least n signals |
| Messages.Msg.NewSignalName | bridge/dbc/dbc.cc:66-75 | the unbounded loop ends within one round more than there are signals, with the least-numbered unused name |
| DbcFile.File.ParseSG | bridge/dbc/dbcfile.cc:171-221 | the fault in the order the code looks for faults, or one new signal at the end of the current message and no other change |
| DbcFile.File.ParseBO | bridge/dbc/dbcfile.cc:147-169 | the fault, or a new message at the truncated address; an unreadable line leaves no current message |
| DbcFile.FaultlessIsUnmixed | bridge/dbc/dbcfile.cc:190-205 | lines without a fault describe messages with different signal names and at most one multiplexor each |
| DbcFile.FaultlessIff | bridge/dbc/dbcfile.cc:147-221 | a file is accepted if and only if each BO line has an address, in 32 bits not taken before, and a size, and each SG line has its numbers and stands under a BO line where neither its name nor, if it says `M`, another `M` comes before it |
| DbcFile.UpdatedIsSpelled | bridge/dbc/dbcfile.cc:171-221 | for each SG line its message has a signal of the line's own name, start bit, size, byte order, sign, factor and offset, of the kind its indicator says and with the value of its `m<v>`, and no other signal |
| DbcFile.File.ReadLines | bridge/dbc/dbcfile.cc:114-140 | the loop stops at the first line with a fault; otherwise the messages hold exactly what the lines say |
| DbcFile.File.Parse | bridge/dbc/dbcfile.cc:90-145 | parsing succeeds if and only if no line has a fault and else reports the first; then there is one message per BO line, at its address in 32 bits, with exactly the signals that its own SG lines spell, in order, with different names, at most one multiplexor, and no signal shared between messages |
| CanParsers.KeyInjective | bridge/car/can_parsers.h:30 | a cache key of names without colons equals the key of no other two strings |
| CanParsers.FrameKeyInjective | bridge/car/can_parsers.h:84-86 | a frame key determines the two low bits of the bus and the address |
| CanParsers.LastFrameIsLast | bridge/car/can_parsers.h:37-42 | the reference the frame store is compared with is the last matching frame of the sequence, and none only if no frame matches |
| CanParsers.SnapshotOK | bridge/dbc/dbcfile.cc:90-145 | a parsed message with names that are words has names without colons, different ones for its signals, and its own address of 32 bits |
| CanParsers.TextsApartIff | bridge/dbc/dbcfile.cc:147-221 | what was said at two addresses has message name and signal name in common if and only if two SG lines of one name stand under different BO lines of one name |
| CanParsers.Parsers.AddBus | bridge/car/can_parsers.h:18-20 | a file is added if and only if no line has a fault; it has a message for each BO line with its updated signals, exactly the multiplexed ones selected, by a multiplexor of that message; and with names that are words no two of its messages share a key if and only if no two BO lines of one name have SG lines of one name under them |
| CanParsers.ExactIffAlone | bridge/car/can_parsers.h:24-35 | for any two strings the cache has one of the definitions the files give them and none if there is none; and it is right for them if and only if the files define them at most once on buses of that number mod 4 |
| CanParsers.FileExactIff | bridge/car/can_parsers.h:24-35 | the cache is right for every signal of a file if and only if no two of the file's messages have message name and signal name in common; messages of one name with different signals do no harm |
| CanParsers.LineMeans | bridge/car/can_parsers.h:24-35 | from lines to the cache: the names of a BO line and an SG line under it lead to the signal the SG line spells, selected by the message's `M` line if it gives a number, at the BO line's address |
| CanParsers.WrongSignal | bridge/car/can_parsers.h:24-60 | a file of two BO lines of one name, each with a signal of one name: asked for the signal of the first, whose last frame shows 5, the cache answers 7 from the second |
| CanParsers.Parsers.BuildCache | bridge/car/can_parsers.h:24-35 | for any files on any buses, each key ends up with its last definition in ascending order of bus and address, and no other key is in the cache |
| CanParsers.Parsers.UpdateFrame | bridge/car/can_parsers.h:37-42 | after a frame the answers about every signal of the message at its address, on buses equal to its own in the two low bits, come from this frame, and no other answer changes |
| CanParsers.Parsers.AnswersForDefined | bridge/car/can_parsers.h:44-76 | after any frames, both getters answer for a signal that is alone under its names what decoding the last frame of its bus and address gives; 0 and false if there is none or its multiplexor does not match |
| CanParsers.Parsers.AnswersForUnknown | bridge/car/can_parsers.h:44-76 | for any other names they answer 0 and false |
| CanParsers.Parsers.Answers | bridge/car/can_parsers.h:44-76 | whatever the files, both getters depend on nothing but the last definition of the two names and the last frame of that message |
| Digits.PrintInjective | bridge/dbc/dbc.h:17-23 | different numbers print differently, in decimal and hexadecimal |
| Digits.StoulOfPrint | bridge/dbc/dbc.h:33-34 | `stoul` reads back what was printed |
| MessageId.RoundTrip | bridge/dbc/dbc.h:17-42 | every message id is read back from its text |
| MessageId.TextsDiffer | bridge/dbc/dbc.h:17-23 | different ids have different texts |
| MessageId.TextMeans | bridge/dbc/dbc.h:17-23 | the text is the source in decimal, a colon, and the address in upper-case hexadecimal, without leading zeros |
| TeslaVin.VinCodesArePermitted | bridge/car/cars/tesla.h:57-62 | the code's character ranges are the 33 characters ISO 3779 permits |
| TeslaVin.FirstTextIsFirst | bridge/car/cars/tesla.h:18-41 | a segment's text is that of the first run that saw it valid |
| TeslaVin.EmptyUntilComplete | bridge/car/cars/tesla.h:37-40 | the VIN is empty if and only if some segment has never been seen valid, in whatever order the others came |
| TeslaVin.NeverChanges | bridge/car/cars/tesla.h:19-21 | once complete the VIN never changes, whatever the bus shows |
| TeslaVin.SeventeenPermitted | bridge/car/cars/tesla.h:30-36 | a VIN is 17 permitted characters |
| TeslaVin.VinSpells | bridge/car/cars/tesla.h:18-55 | once segments A, B and C have all been shown good, the VIN is three characters of the first good A, from its fifth byte, then seven of the first good B, then seven of the first good C, each byte `raw / 256^b % 256`; before, it is empty |
| TeslaMapper.ReadSegment | bridge/car/cars/tesla.h:27-33 | the byte loops accept a segment exactly when it is valid and give its text |
| TeslaMapper.VinUpdater.UpdateSegment | bridge/car/cars/tesla.h:20-36 | a segment not yet seen is stored when it is valid, and the other slots stay |
| TeslaMapper.VinUpdater.Update | bridge/car/cars/tesla.h:18-41 | after every run the state's VIN is what the whole history of what VIN_A405, VIN_B405 and VIN_C405 showed spells |
| TeslaMapper.UpdateVehicleBus | bridge/car/cars/tesla.h:92-114 | each energy and thermistor field takes what its message's last frame offers and else keeps its value; power limits, voltage, current, power level and odometer show what the bus answers |
| TeslaMapper.PowerLevelMeaning | bridge/car/cars/tesla.h:85-90 | the power level lies in -100 to 100 with the sign of the power, is 100 and -100 exactly from the limits on, and is in proportion between them |
| TeslaMapper.UpdateTyres | bridge/car/cars/tesla.h:194-209 | each wheel's pressure and temperature takes a reading of the right multiplexor value that passes its range test and else keeps its value |
| TeslaMapper.UpdateBody | bridge/car/cars/tesla.h:168-176 | the same for the door and buckle fields |
| TeslaMapper.SteppedByLastFrame | bridge/car/cars/tesla.h:92-209 | what an update writes to a field whose index and reading are signals of one message is determined by the last frame of that message |
| TeslaHold.TruncateMeans | bridge/car/cars/tesla.h:95 | the cast to `int` takes the fraction off and keeps the sign |
| TeslaHold.OneBatch | bridge/common/bridge_core.h:45-52 | after a batch and an update, a field is what the batch's last frame of its message offers, or unchanged |
| TeslaHold.OfferedIffCarried | bridge/car/cars/tesla.h:92-209 | on a frame of a field's message the mapper writes the field if and only if, by the DBC, the frame's multiplexor selects the field's signal and its value passes the field's range test, and it writes the signal's physical value; for any index of which no raw value is misjudged |
| TeslaHold.TestableIff | bridge/car/cars/tesla.h:95-203 | the exact condition for the index test, truncated or raw: on all frames of a length that holds the index it agrees with the DBC if and only if none of the raw values the index can have is misjudged; a pressure may be tested too often, since it then reads 0 and fails its range test |
| TeslaHold.OffersDueIff | bridge/car/cars/tesla.h:92-176 | for fields tested by truncation the same condition is exact for what is written |
| TeslaHold.PlainIsTestable | bridge/car/cars/tesla.h:95-203 | an index scaled by whole numbers meets the condition for truncation, and one unsigned and unscaled in any case |
| TeslaHold.FieldsHoldLastReading | bridge/bridge_ios.cpp:104-109 | when the mapper is updated after each frame, every held field shows the physical value of its signal in the most recent frame that, by the DBC, carried it in range, whatever came between |
| TeslaHold.FractionalIndexMisleads | bridge/car/cars/tesla.h:95-99 | a DBC whose index is scaled by a half and a frame that does not carry a field and yet overwrites it with 0 |
| TeslaHold.BatchesMayLose | bridge/common/bridge_core.h:45-52 | after a batch a field has the batch's last reading if and only if no later frame of the message in the batch lacked the field, or that reading was held already |
| TeslaHold.BatchLosesReading | bridge/common/bridge_core.h:45-52 | a DBC and a batch of two frames after which a field shows 0 though 3 was its last reading, and after the same frames one at a time 3 |
| TeslaMapper.VehicleDecoder.UpdateMapper | bridge/common/vehicle_decoder.h:39-41 | an update ends a batch; all fields are what the batches so far lead to, the VIN is what the last VIN frames at the ends of the batches lead to, and once complete it stays |
| TeslaMapper.VehicleDecoder.DecodeCanFrame | bridge/bridge_ios.cpp:104-109 | however often it is called and with whatever frames, every held field shows the value its signal had in the most recent frame that, by the DBC, carried it, and a complete VIN stays |
| DecoderRuns.Open | bridge/common/vehicle_decoder.h:27-37 | a decoder is made if and only if no file has a fault; each bus then has the messages of the last file given for it, and the cache is built |
| DecoderRuns.Drive | bridge/common/vehicle_decoder.h:27-41 | from DBC lines and frames to the state of the car: every field the files define shows the value its signal had in the last frame that carried it, and the VIN is spelled by the first good A, B and C that the frames showed |
| DecoderInputs.EnergyAnswers | bridge/car/can_parsers.h:44-76 | an input from lines with `M`, `m0` and `m1` to answers: a frame showing 1 carries the scaled and shifted `m1` signal and not the `m0` one, whatever frames other buses or addresses send |

## Left out

- Queue, operating system: mapping files, signals, sleeping in `msgq_poll`, event files, and the
  zmq sockets `bridge/msgq/ipc.cc` selects at run time.
- Queue, races: in the step machine, resetting a reader is one step and the set of readers is fixed. Runs take
  registration and eviction as atomic. Memory effects weaker than sequential consistency and overflow of
  the 32-bit lap counters are not modelled.
- Msgq.Handle.InitSubscriber: others register as a whole between the load of the number of readers and what is
  done with it; the stores after the swap, and those of an eviction, are not interleaved with anyone's.
- Queue, identities: `msgq_get_uid` is a parameter, fresh and not 0.
- GapFreedom.NoGaps: speaks of readers that do not conflate, since a conflating reader skips messages on purpose.
- SignedValues.InterpretExact: stops at 63 bits; at 64 the code shifts by the width of the word when the
  signal is signed, and `SignedValues.UnsignedExact` says what happens when it is not.
- SignedValues.GetRawInt: for a signed signal of 0 or more than 64 bits, or of 64 with its top bit set, the code
  shifts by the width of the word or more (or by -1), and the source leaves the value undefined.
- Messages.Sort: an insertion sort with the contract of `std::sort`; which of several signals with
  equal keys comes first is not used.
- Messages: `min`, `max`, `unit`, comments and value descriptions are copied along by the source and
  nothing else; they are not fields here. `factor` and `offset` are reals, without rounding. Positions
  are unbounded and start bits not negative.
- DbcFile: regular expressions, trimming and number conversion happen before the model's lines; a line whose
  numbers the library rejects is one kind of fault. The file header and line texts in messages are left out.
- CanParsers: the cache holds values, not pointers into the files, so an edit of a message after
  `buildCache` is not visible; the source asks for the cache to be built after all files are added.
- CanParsers.Parsers.AnswersForDefined: names in files are words, as the parser's regular expressions have it; and
  where decoding shifts by the width of the word or more the source gives no value, but
  `CanParsers.Parsers.Answers` and the mapper take the one that `SignedValues.Interpret` gives.
- TeslaMapper.SteppedByLastFrame: nothing is said of a field whose index and reading are in two messages of one name.
- Messages.UpdateTwice: multiplexors of one message have different names.
- TeslaMapper.UpdateState: the vehicle bus, door, buckle, tyres and the VIN; the straight copies from other
  messages and the blinker's clock are left out. The Comma and Juniper mappers differ only in those.
- TeslaHold.Truncate: converts to an unbounded integer, where the source's `int` has 32 bits.
