# Verified models of the default hardware services

This Dafny project models the parts of the repository that hold real state, loops and byte formats,
and proves what they are for. Each method below follows the branches of the code it models and is
proved against a specification written without it; the lemmas then state what the specification
promises over all inputs and all runs.

| file | what it models |
|---|---|
| `Bytes.dfy`, `Wrappers.dfy` | bytes, little-endian and network-order integers; optional values |
| `KeyParameters.dfy` | Keymaster tags, their types, the order and the equality of parameters |
| `AuthorizationSets.dfy` | `AuthorizationSet`: sort, deduplicate, union, subtract, find |
| `ParamStreams.dfy` | the persistent format of a set: writer, parser, streams with state bits |
| `AuthTokens.dfy` | hardware auth tokens as 69 byte vectors, on hosts of either byte order |
| `Hci.dfy` | the Bluetooth UART receive path and the framing of `Send` |
| `LowPower.dfy` | low-power mode of the Bluetooth vendor interface |
| `EventInterception.dfy` | the interception of the events that answer vendor commands |
| `Selectors.dfy` | program selectors, `tunesTo`, `getProgram`, and seeking |
| `Stepping.dfy` | stepping within AM/FM bands |
| `StationNames.dfy` | HD Radio station names in 64 bits, validity of identifiers |
| `TunerSession.dfy` | the tuner session over its worker thread, as a machine and as two classes |
| `Cbor.dfy` | the UTF-8 check and the CBOR writer of the confirmation UI |

Functions that both sides of a theorem use, such as the width of a value, the length of a packet or the
rule for tuning, are in addition stated by bytes and numbers alone, in lemmas named `...Exactly` and in
those about single elements, packets and events.

How to read the larger models:

* **Parameters tie** when neither is less than the other. `std::sort` may leave tied parameters in any
  order, so the set operations are relations (`IsDeduplicated`, `IsUnion`, `IsDifference`) and the laws
  of the algebra hold of any two results up to ties, which on every type with an enumerator is
  `keyParamEqual` place by place (`TieIsEqual`, `TiesAreEqualities`).
* **The union of a `KeyParameter`** is its eight bytes; every member starts at the first one. Integers
  are read from memory in little-endian order, the byte order of every Android ABI; the auth tokens,
  whose format mixes byte orders, are modelled for hosts of both kinds.
* **The HCI machine** steps once for each readiness notification; the size of each read is chosen
  freely, zero meaning end of file. An unknown packet type aborts the process.
* **Low-power mode** splits whatever another thread may get between. The firmware callback takes no
  lock, so its four parts are four steps, and `Send` is split between its own read of the timeout and
  its use; the expiry of the timer and the run of its callback are two steps as well. A run covers any
  number of sessions: closing and opening again keeps the globals.
* **The slot for vendor commands** is written in two steps, callback and opcode, because the code takes
  no lock there and events may be handled in between.
* **The tuner session** takes one step for each API call, because each holds the session lock
  throughout and nothing but such a call adds to the queue, and separate steps for the worker taking a
  task and running it, and for the passage of time. (The task that reports a seek on an empty list takes
  no lock, but all it does is one callback.) A run is any sequence of enabled steps. That at
  most one task is in flight is the shape of the worker: it takes a task only when it holds none.

Where the code falls short of what its documentation says, or of what its reader would expect, the
model follows the code and the exact condition is proved:

* sets: `UnionIdempotent`, `UnionThenSubtract`;
* the parser of parameter sets, whose comment says that it fails on an unknown tag, reports nothing
  (`FrameIsNeverRejected`), leaves the caller with what its vector held before (`UnlistedTagLeavesStale`,
  `TokenHidesNextEntry`), also when elements are missing (`MissingElementsLeaveStale`), and reads a frame
  back exactly if every tag is listed, a valueless last one excepted (`ReadsBackExactly`);
* HCI packets without payload: `RunRefinesParse`, `StuckForGood`, `EmptyEventIsHeldBack`;
* low-power mode: assertions of wake alternate exactly if no session opened awake asserts it first
  (`AlternatesExactly`), and a controller kept awake has its timer exactly unless a `Send` armed it with
  a zero timeout it had read before the firmware callback (`ArmedExactly`, `WatchedUnlessRaced`,
  `RaceIsPossible`);
* vendor commands: a callback gets the answer of another command exactly if it runs while the slot is
  half written and the opcodes differ (`RunAnswersOwn`, `ForeignExactly`, `ForeignAnswer`);
* stepping: a step is undone by the opposite one exactly if no earlier band holds the frequency in
  between and the band itself permits it (`StepsBackExactly`, `StepThenBack`, `UndoneExactly`); the
  built-in short wave band begins inside medium wave and fails it (`ShortWaveStepIsNotUndone`);
* the rest of the tuner: `SeekUpIsNextStation`, `SettledExactly`; and `startProgramListUpdates`, which
  filters the list and then sends the unfiltered one, serves a filter exactly if every program satisfies
  it (`HonouredExactly`, `AnalogueListForDigitalRequest`);
* the UTF-8 check accepts more than valid strings, and `ValidExactly` says which accepted ones are valid.

## Model
| member | source | states |
|---|---|---|
| KeyParameters.StrictWeakOrder | keymaster/4.0/support/authorization_set.cpp:28-84 | the comparison handed to `std::sort` is a strict weak order on all parameters, and on types with an enumerator its ties are the equality used to find duplicates |
| KeyParameters.TieIsEqual | keymaster/4.0/support/authorization_set.cpp:28-84 | ties and equality coincide on known types; on the other types everything with the same tag ties and nothing equals anything, not even itself |
| KeyParameters.BlobOrder | keymaster/4.0/support/authorization_set.cpp:45-81 | blobs tie, and are equal, exactly if they are the same bytes |
| KeyParameters.EqualExactly | keymaster/4.0/support/authorization_set.cpp:61-84 | equality by bytes: for the same tag none, the first four, all eight of the union or the blob, by the number of the type, and never for numbers without type |
| KeyParameters.LessExactly | keymaster/4.0/support/authorization_set.cpp:28-59 | the order by bytes: by tag, then by the highest byte in which the values differ, blobs lexicographically |
| AuthorizationSets.AuthorizationSet.Sort | keymaster/4.0/support/authorization_set.cpp:86-88 | the data become a sorted permutation of themselves |
| AuthorizationSets.AuthorizationSet.Deduplicate | keymaster/4.0/support/authorization_set.cpp:90-108 | sorted; only old entries; every class survives once, INVALID only if nothing else was there, unknown types with all their copies |
| AuthorizationSets.DeduplicatedIsStrict | keymaster/4.0/support/authorization_set.cpp:90-108 | without unknown types the result is strictly increasing |
| AuthorizationSets.DeduplicatedClasses | keymaster/4.0/support/authorization_set.cpp:90-108 | an entry has an equal in the result exactly if it had one before and is not an INVALID beside others |
| AuthorizationSets.DeduplicatedKeepsValues | keymaster/4.0/support/authorization_set.cpp:90-108 | every entry other than INVALID is kept exactly once, byte for byte in the field of its type, so entries that differ there both stay |
| AuthorizationSets.SortedIsCanonical | keymaster/4.0/support/authorization_set.cpp:86-113 | how often each class occurs determines a sorted list up to ties |
| AuthorizationSets.AuthorizationSet.Union | keymaster/4.0/support/authorization_set.cpp:110-113 | the deduplication of both sets together |
| AuthorizationSets.UnionCommutes | keymaster/4.0/support/authorization_set.cpp:110-113 | union is commutative up to ties, for all sets |
| AuthorizationSets.UnionAssociates | keymaster/4.0/support/authorization_set.cpp:110-113 | union is associative up to ties, for all sets, INVALID entries included |
| AuthorizationSets.UnionIdempotent | keymaster/4.0/support/authorization_set.cpp:110-113 | union with itself is deduplication exactly if all types are known |
| AuthorizationSets.AuthorizationSet.Find | keymaster/4.0/support/authorization_set.cpp:160-167 | the first entry with the tag after the given index, or -1 if there is none |
| AuthorizationSets.AuthorizationSet.GetTagCount | keymaster/4.0/support/authorization_set.cpp:154-158 | repeated searches count each entry with the tag once |
| AuthorizationSets.AuthorizationSet.Subtract | keymaster/4.0/support/authorization_set.cpp:115-130 | terminates and leaves exactly the deduplicated entries that equal nothing in the other set, in order |
| AuthorizationSets.SubtractedExactly | keymaster/4.0/support/authorization_set.cpp:115-130 | an entry other than INVALID is gone exactly if the same bytes occur under its tag in the other set |
| AuthorizationSets.AuthorizationSet.EraseMatching | keymaster/4.0/support/authorization_set.cpp:120-127 | one round removes everything equal to one entry of the other set |
| AuthorizationSets.UnionThenSubtract | keymaster/4.0/support/authorization_set.cpp:110-130 | adding a set and subtracting it again equals subtracting it, exactly unless the set holds unknown types or pushed out a lone INVALID |
| AuthorizationSets.TiesAreEqualities | keymaster/4.0/support/authorization_set.cpp:61-84 | lists of known types that tie are equal place by place |
| AuthorizationSets.SameValuesAreEqual | keymaster/4.0/support/authorization_set.cpp:61-84 | entries that agree in the selected field are equal |
| AuthorizationSets.AuthorizationSet.Serialize | keymaster/4.0/support/authorization_set.cpp:447-449 | writes the serialization of the data |
| AuthorizationSets.AuthorizationSet.Deserialize | keymaster/4.0/support/authorization_set.cpp:451-453 | replaces the data by what was read, unless the stream was bad |
| ParamStreams.PutAllMeetsFormat | keymaster/4.0/support/authorization_set.cpp:209-286 | the element stream goes bad exactly when all blobs together exceed 32 bits; until then the streams hold the two regions and the skipped count is exact; the size check on the indirect stream never fires |
| ParamStreams.SerializedIsFormat | keymaster/4.0/support/authorization_set.cpp:288-327 | success exactly if both regions fit in 32 bits, and then the documented layout of the listed entries other than INVALID, with an element count that was not truncated |
| ParamStreams.ElementsAreLong | keymaster/4.0/support/authorization_set.cpp:237-252 | each written element takes at least five bytes |
| ParamStreams.ListedExactly | keymaster/4.0/support/include/keymasterV4_0/keymaster_tags.h:158-173 | the tags written and read, by type and by the numbers of the interface |
| ParamStreams.SerializedOne | keymaster/4.0/support/authorization_set.cpp:209-327 | the serialization of one listed entry byte by byte: 4, 8 or 1 bytes of the union by type, or length, offset and blob |
| ParamStreams.SerializedAppended | keymaster/4.0/support/authorization_set.cpp:209-327 | what one more entry adds to the regions and the count of a serialization: its tag, its bytes and its blob, or nothing |
| ParamStreams.Serialize | keymaster/4.0/support/authorization_set.cpp:288-327 | the writing loop produces exactly that layout or the badbit |
| ParamStreams.OutStreams.SerializeBlob | keymaster/4.0/support/authorization_set.cpp:209-235 | length, offset and blob, or the badbit on overflow |
| ParamStreams.OutStreams.SerializeParam | keymaster/4.0/support/authorization_set.cpp:243-286 | one listed entry, or one more skipped |
| ParamStreams.RecordsTile | keymaster/4.0/support/authorization_set.cpp:196-235 | a walk over the element bytes meets blob records that tile the indirect region in order, without gap or overlap, and cut it into exactly the blobs written |
| ParamStreams.GetParamReads | keymaster/4.0/support/authorization_set.cpp:335-393 | reading at the start of an element yields its tag and the value its tag selects, into whatever was in the place before, and moves to the next element |
| ParamStreams.InvalidsAreCounted | keymaster/4.0/support/authorization_set.cpp:352-356 | for all regions whatsoever the count of invalids is the number of entries that ended up INVALID |
| ParamStreams.Filter | keymaster/4.0/support/authorization_set.cpp:430-443 | the legacy filter fills its pre-sized vector exactly and keeps the order of the others |
| ParamStreams.InStreams.DeserializeBlob | keymaster/4.0/support/authorization_set.cpp:335-344 | one blob, also from short or failed streams |
| ParamStreams.InStreams.DeserializeParam | keymaster/4.0/support/authorization_set.cpp:346-393 | one entry, an INVALID counted, an unknown tag turning the inner stream bad |
| ParamStreams.Deserialize | keymaster/4.0/support/authorization_set.cpp:395-445 | the five reads, the loop and the filter, on any stream in any state |
| ParamStreams.FrameIsNeverRejected | keymaster/4.0/support/authorization_set.cpp:371-445 | whatever the two regions hold, the outer stream stays good and ends behind the frame |
| ParamStreams.GetAllFailed | keymaster/4.0/support/authorization_set.cpp:335-424 | once the element stream is not good, every later round keeps the tag and the union of its place and empties the blob of a listed tag |
| ParamStreams.UnlistedTagLeavesStale | keymaster/4.0/support/authorization_set.cpp:371-445 | for every frame with an unlisted tag the caller gets the entries before it, the unlisted tag with what its place held, and behind it the entries its vector held before |
| ParamStreams.ReadsBackExactly | keymaster/4.0/support/authorization_set.cpp:346-445 | a frame is read back into every vector, up to INVALID elements, exactly if all its tags are listed, a last one that selects no field excepted |
| ParamStreams.TokenHidesNextEntry | keymaster/4.0/support/authorization_set.cpp:346-445 | one frame: an entry behind a confirmation token is not read, and a stale identifier takes its place |
| ParamStreams.MissingElementsLeaveStale | keymaster/4.0/support/authorization_set.cpp:346-445 | for every frame whose count exceeds its elements, the places behind them keep what they held, blobs emptied |
| ParamStreams.BlobExactly | keymaster/4.0/support/authorization_set.cpp:335-344 | a blob record gives the bytes at its offset; beyond the end of the region, what is left before what the place held, and then the region is not read again |
| ParamStreams.DeserializedFormat | keymaster/4.0/support/authorization_set.cpp:395-445 | a format with legacy INVALID elements is read as its other entries, in order |
| ParamStreams.DeserializedOne | keymaster/4.0/support/authorization_set.cpp:346-445 | reading explicit bytes of one entry puts the value over the first bytes of its union and leaves the others |
| ParamStreams.DeserializedBlob | keymaster/4.0/support/authorization_set.cpp:335-445 | reading explicit bytes of one blob entry gives the blob |
| ParamStreams.SameValueExactly | keymaster/4.0/support/authorization_set.cpp:335-349 | which bytes a read entry shares with the one written, by the number of its type |
| ParamStreams.RoundTrip | keymaster/4.0/support/authorization_set.cpp:184-445 | deserializing what was serialized, from anywhere in a stream and into any vector, gives exactly the listed entries other than INVALID, in order and with their values |
| AuthTokens.AuthTokenToVec | keymaster/4.0/support/keymaster_utils.cpp:59-84 | the moving iterator fills the documented layout, the MAC zeroed if it has another size than 32 |
| AuthTokens.LayoutExactly | keymaster/4.0/support/keymaster_utils.cpp:59-84 | the offset, the width and the byte order of every field |
| AuthTokens.NetworkFieldsAreBigEndian | keymaster/4.0/support/keymaster_utils.cpp:73-76 | fields converted to network order are big-endian on the wire on either host, and converting twice gives the value back |
| AuthTokens.DecodeEncode | keymaster/4.0/support/keymaster_utils.cpp:59-110 | decoding an encoded token gives it back, up to a MAC of the wrong size |
| AuthTokens.EncodeDecode | keymaster/4.0/support/keymaster_utils.cpp:59-110 | encoding a decoded vector gives it back with version byte zero |
| AuthTokens.HostsAgree | keymaster/4.0/support/keymaster_utils.cpp:86-110 | hosts of different byte order read the same type, timestamp and MAC |
| Hci.ParseAfterWire | bluetooth/1.0/default/h4_protocol.cc:32-48 | the whole-stream parser recovers sent packets and goes on with what follows |
| Hci.ParseAcl | bluetooth/1.0/default/hci_packetizer.cc:29-41 | an ACL packet has a preamble of four bytes, the last two its length, low byte first |
| Hci.ParseSco | bluetooth/1.0/default/hci_packetizer.cc:29-41 | an SCO packet has a preamble of three bytes, the last its length |
| Hci.ParseEvent | bluetooth/1.0/default/hci_packetizer.cc:29-41 | an event has a preamble of two bytes, the second its length |
| Hci.ParseStops | bluetooth/1.0/default/h4_protocol.cc:69-97 | other type bytes and packets that are not complete give nothing |
| Hci.StepConsumes | bluetooth/1.0/default/hci_packetizer.cc:51-105 | each notification consumes exactly what it read and keeps the invariants of preamble and payload |
| Hci.OnlyStuckOrAborted | bluetooth/1.0/default/hci_packetizer.cc:69-90 | the only states that ask the driver for nothing are after an unknown type and after a preamble that declares no payload |
| Hci.RunRefinesParse | bluetooth/1.0/default/hci_packetizer.cc:36-105 | however the reads split the stream, the packets handed on are those of the whole-stream parser up to the first without payload; all of them exactly if the stream holds none without payload, else the machine is stuck |
| Hci.RunDeliversAcl | bluetooth/1.0/default/hci_packetizer.cc:36-105 | however it is split, a stream that begins with the bytes of an ACL packet delivers that packet first |
| Hci.RunDeliversSco | bluetooth/1.0/default/hci_packetizer.cc:36-105 | the same for an SCO packet |
| Hci.RunDeliversEvent | bluetooth/1.0/default/hci_packetizer.cc:36-105 | the same for an event |
| Hci.StuckForGood | bluetooth/1.0/default/hci_packetizer.cc:69-90 | once stuck on a packet without payload the machine never moves again |
| Hci.EmptyEventIsHeldBack | bluetooth/1.0/default/hci_packetizer.cc:62-90 | an event that declares no parameters is a packet of the stream and is not delivered |
| Hci.SentIsReceived | bluetooth/1.0/default/h4_protocol.cc:32-97 | a run of fully written frames with payload is received as the same packets |
| Hci.HciPacketizer.OnDataReady | bluetooth/1.0/default/hci_packetizer.cc:51-105 | the code on its fields takes the step of the machine |
| Hci.H4Protocol.OnDataReady | bluetooth/1.0/default/h4_protocol.cc:69-97 | the same with the type byte, consuming what was read |
| Hci.H4Protocol.OnPacketReady | bluetooth/1.0/default/h4_protocol.cc:50-67 | the packet goes to the callback of its type only |
| Hci.H4Protocol.Pump | bluetooth/1.0/default/h4_protocol.cc:50-97 | after any number of notifications each callback has received its share of the parsed packets, in order |
| Hci.H4Protocol.Send | bluetooth/1.0/default/h4_protocol.cc:32-48 | retries until the driver decides; a full count means that the frame was written, an error that nothing was |
| LowPower.RunIsSafe | bluetooth/1.0/default/vendor_interface.cc:265-365 | in every run over any number of sessions packets travel only while the session keeps the controller awake, wake is asserted only when it is not or by a session that found it so, two timeouts lie between a packet and the next sleep, initialization is reported at most once in a session, and the callback for a zero timeout never runs |
| LowPower.RunDeliversPackets | bluetooth/1.0/default/vendor_interface.cc:311-365 | in every run the transport gets the packets of the calls that got the lock, all, once and in order, at most the last being on its way, whatever timeouts, firmware callbacks and sessions come between |
| LowPower.TwoTimeoutsSleep | bluetooth/1.0/default/vendor_interface.cc:353-365 | in every run without a packet, two timeouts put the controller to sleep and it stays asleep, whatever else happens |
| LowPower.WatchdogSleeps | bluetooth/1.0/default/vendor_interface.cc:353-365 | an armed watchdog gives those timeouts by itself: expiring twice puts the controller to sleep and switches the timer off |
| LowPower.FirstResultIsTold | bluetooth/1.0/default/vendor_interface.cc:329-341 | in every run the client is told the first result reported in each session, with its flag, and no other |
| LowPower.AlternatesExactly | bluetooth/1.0/default/vendor_interface.cc:265-327 | assertions of wake alternate with deassertions exactly if no session opened awake asserts it before deasserting it |
| LowPower.ClosedAsleepAlternates | bluetooth/1.0/default/vendor_interface.cc:265-327 | they alternate over all sessions if none is closed while wake is asserted |
| LowPower.OneSessionAlternates | bluetooth/1.0/default/vendor_interface.cc:311-365 | within one session they always alternate |
| LowPower.ReopeningRepeatsExactly | bluetooth/1.0/default/vendor_interface.cc:265-327 | after closing and opening, the first packet repeats the assertion exactly if wake was asserted at the close |
| LowPower.ArmedExactly | bluetooth/1.0/default/vendor_interface.cc:311-365 | in every run a configured controller that is kept awake has its timer running exactly unless the timer was armed last by a `Send` that had read a zero timeout |
| LowPower.WatchedUnlessRaced | bluetooth/1.0/default/vendor_interface.cc:311-351 | if the firmware callback never arms the timer inside such a `Send`, the timer runs whenever a configured controller is kept awake |
| LowPower.RaceIsPossible | bluetooth/1.0/default/vendor_interface.cc:311-351 | a run that leaves a configured controller awake without timer: the first packet, with the firmware callback inside its `Send` |
| LowPower.VendorInterface.Send | bluetooth/1.0/default/vendor_interface.cc:311-327 | the code takes the two steps of the machine and returns what the transport wrote of the frame |
| LowPower.VendorInterface.BeginSend | bluetooth/1.0/default/vendor_interface.cc:312-317 | the first half, up to the read of the idle timeout |
| LowPower.VendorInterface.EndSend | bluetooth/1.0/default/vendor_interface.cc:317-326 | the second half: timer, wake, transport, and the count that the transport returns |
| LowPower.VendorInterface.OnFirmwareConfigured | bluetooth/1.0/default/vendor_interface.cc:329-351 | the code takes the four steps of the machine: it completes the initialization once, asks for the idle timeout, enables low-power mode and arms the timer |
| LowPower.VendorInterface.OnTimeout | bluetooth/1.0/default/vendor_interface.cc:353-365 | the code takes the step of the machine |
| LowPower.VendorInterface.Close | bluetooth/1.0/default/vendor_interface.cc:275-309 | the code takes the step of the machine: the watcher stops, the wake line and the globals stay |
| LowPower.VendorInterface.Open | bluetooth/1.0/default/vendor_interface.cc:185-273 | the code takes the step of the machine: wake counts as deasserted, or on failure nothing changes |
| EventInterception.RunRoutesEvents | bluetooth/1.0/default/vendor_interface.cc:67-93 | in every run each event goes to one place, unchanged and in order, and callbacks run in the order of their transmits, each at most once |
| EventInterception.RunAnswersOwn | bluetooth/1.0/default/vendor_interface.cc:67-93 | in every run in which no callback runs while the slot is half written, callbacks run only for an event whose first byte is 0x0E and whose fourth and fifth bytes are the opcode of their own transmit, and each transmit sends its command, in order |
| EventInterception.ForeignExactly | bluetooth/1.0/default/vendor_interface.cc:83-93 | after such a run, the next event makes a callback run for the answer of another command exactly if the slot is half written, the event answers the old opcode, a callback waits and the new opcode differs |
| EventInterception.ForeignAnswer | bluetooth/1.0/default/vendor_interface.cc:83-93 | runs in which that happens, for any two commands of different opcodes |
| EventInterception.InterceptedExactly | bluetooth/1.0/default/vendor_interface.cc:367-379 | an event is kept from the client exactly if the latest transmit still waits and the event answers the opcode in the slot, its own or, while it has not written that, the one before; while none waits, events of any size go to the client |
| EventInterception.EventByBytes | bluetooth/1.0/default/vendor_interface.cc:67-81 | with a callback waiting, an event goes to it exactly if its first byte is 0x0E and the fourth and fifth, low byte first, are the opcode in the slot |
| EventInterception.HandleEventExactly | bluetooth/1.0/default/vendor_interface.cc:367-379 | the same for events of any size, and to the client otherwise |
| EventInterception.InnerTransmitKeepsSlot | bluetooth/1.0/default/vendor_interface.cc:372-375 | the last transmit made inside a callback holds the slot afterwards |
| EventInterception.InternalCommand.HandleIncomingEvent | bluetooth/1.0/default/vendor_interface.cc:367-379 | the code takes the step of the machine |
| EventInterception.InternalCommand.TransmitCommand | bluetooth/1.0/default/vendor_interface.cc:83-93 | without an event in between, the slot is overwritten and the command sent |
| EventInterception.InternalCommand.BeginTransmit | bluetooth/1.0/default/vendor_interface.cc:83-86 | the callback is written, the opcode not yet |
| EventInterception.InternalCommand.EndTransmit | bluetooth/1.0/default/vendor_interface.cc:87-91 | the opcode is written and the command sent |
| Selectors.MaybeGetId | broadcastradio/common/utils2x/Utils.cpp:136-174 | the primary identifier of the type, or the first secondary one |
| Selectors.SupportedTunesToItself | broadcastradio/common/utils2x/Utils.cpp:114-134 | selectors of supported types tune to themselves |
| Selectors.IdExactly | broadcastradio/common/utils2x/Utils.cpp:136-154 | the primary identifier comes first |
| Selectors.TerrestrialExactly | broadcastradio/common/utils2x/Utils.cpp:108-124 | the rule for terrestrial programs over the values of types 1 to 3, HD subchannel included |
| Selectors.OtherExactly | broadcastradio/common/utils2x/Utils.cpp:125-133 | programs of types 5, 9 and 12 are tuned to by exactly their own value, programs of other types never |
| Selectors.AmFmTunesToFrequency | broadcastradio/common/utils2x/Utils.cpp:114-134 | what an AM/FM selector tunes to has that frequency |
| Selectors.GetProgram | broadcastradio/2.0/default/VirtualRadio.cpp:67-76 | the first program in list order that the selector tunes to |
| Selectors.FirstTunedExactly | broadcastradio/2.0/default/VirtualRadio.cpp:67-76 | a selector with one identifier of type 5, 9 or 12 finds the first program with that primary identifier, or none |
| Selectors.NoTerrestrialFound | broadcastradio/2.0/default/VirtualRadio.cpp:67-76 | without terrestrial identifiers no terrestrial program is found |
| Selectors.CheckSatisfies | broadcastradio/common/utils2x/Utils.cpp:330-351 | a program satisfies a filter if it has an identifier of a listed type, a listed identifier, and no category as primary one, each only if asked |
| Selectors.SatisfiesExactly | broadcastradio/common/utils2x/Utils.cpp:330-351 | the rule over the primary and the secondary identifiers, categories being type 6 |
| Selectors.FilterPrograms | broadcastradio/2.0/default/TunerSession.cpp:237-242 | the copy keeps exactly the satisfying programs, in order |
| Selectors.FilteredIsWhole | broadcastradio/2.0/default/TunerSession.cpp:237-242 | filtering leaves the list as it is exactly if every program satisfies the filter |
| Seeking.SeekDownIsGreatestBelow | broadcastradio/2.0/default/TunerSession.cpp:142-160 | from any selector seek down picks the greatest program below it, or the last if there is none |
| Seeking.SeekUpIsNextStation | broadcastradio/2.0/default/TunerSession.cpp:142-160 | seek up picks the next station exactly unless the selector lies between the last two or tunes to two neighbours |
| Seeking.SeekUpSkipsLastStation | broadcastradio/2.0/default/VirtualRadio.cpp:33-43 | on the built-in radio 106.1 is skipped from 105.0 |
| Seeking.SeekFromStation | broadcastradio/2.0/default/TunerSession.cpp:142-169 | on a radio without overlapping programs completed seeks go round the sorted list |
| Seeking.AmFmIsSeparate | broadcastradio/common/utils2x/Utils.cpp:108-124 | AM/FM programs on increasing frequencies do not overlap |
| Seeking.DabIsSeparate | broadcastradio/2.0/default/VirtualRadio.cpp:45-53 | the built-in DAB programs do not overlap |
| Seeking.DabSeeks | broadcastradio/2.0/default/VirtualRadio.cpp:45-53 | completed seeks on the built-in DAB radio go round its three programs |
| Seeking.SeekDownUndoesUp | broadcastradio/2.0/default/TunerSession.cpp:142-169 | completed seeks in opposite directions undo each other |
| Seeking.SeeksVisitAll | broadcastradio/2.0/default/TunerSession.cpp:142-169 | as many seeks as programs visit each once and return to the start |
| Seeking.SeekTarget | broadcastradio/2.0/default/TunerSession.cpp:142-160 | sorting and searching find the target of the specification |
| Stepping.FindBand | broadcastradio/2.0/default/TunerSession.cpp:306-311 | the first band that contains the frequency |
| Stepping.StepNeverLeavesBands | broadcastradio/2.0/default/TunerSession.cpp:193-199 | with any bands, overlapping ones included, a step ends in a band that held the frequency |
| Stepping.StepUpOnGrid | broadcastradio/2.0/default/TunerSession.cpp:193-199 | one channel up, from the last to the first |
| Stepping.StepDownOnGrid | broadcastradio/2.0/default/TunerSession.cpp:193-199 | one channel down, from the first to the upper bound, unless the 64-bit subtraction wraps |
| Stepping.InverseExactly | broadcastradio/2.0/default/TunerSession.cpp:193-199 | within one band, leaving out that the code looks the band up again: up and down undo each other on the grid exactly if the width is a multiple of the spacing and the spacing at most the lower bound, or there is one channel that steps never leave |
| Stepping.ReversibleExactly | broadcastradio/2.0/default/TunerSession.cpp:193-199 | the frequencies of a band from which a step can be undone in it, on the grid or not |
| Stepping.StepsBackExactly | broadcastradio/2.0/default/TunerSession.cpp:181-199 | for any bands and frequency, with the lookup before each step: the opposite step returns exactly if the lookup of the target finds the same band and the step can be undone in it |
| Stepping.UndoneExactly | broadcastradio/2.0/default/TunerSession.cpp:181-199 | in a regular band all steps between its channels are undone exactly if earlier bands hold all its channels or none |
| Stepping.ShortWaveStepIsNotUndone | broadcastradio/2.0/default/BroadcastRadio.cpp:33-38 | on the built-in bands, all of them regular, a step down from 1621 leads to 1620 and the step up from there to 531 |
| Stepping.StepCycle | broadcastradio/2.0/default/TunerSession.cpp:181-199 | round a band whose channels no earlier band holds, width/spacing + 1 steps return to the start and each channel is reached by exactly one count of steps; upwards in every such band, downwards in the regular ones |
| Stepping.DisjointUnshadowed | broadcastradio/2.0/default/TunerSession.cpp:306-311 | among disjoint bands no channel is held by an earlier band |
| Stepping.StepLandsOnFrequency | broadcastradio/2.0/default/TunerSession.cpp:202-208 | a completed step is on the target frequency, program or not |
| StationNames.MakeHdRadioStationName | broadcastradio/common/utils2x/Utils.cpp:395-415 | unpacking the 64 bits byte by byte gives the first eight letters and digits in upper case |
| StationNames.AlnumsAppended | broadcastradio/common/utils2x/Utils.cpp:395-406 | digits and capitals are kept, small letters become their capitals, anything else is dropped |
| StationNames.ShiftKeepsAllBits | broadcastradio/common/utils2x/Utils.cpp:408-412 | no shift loses a bit |
| StationNames.RepackIsStable | broadcastradio/common/utils2x/Utils.cpp:395-415 | packing an unpacked name gives the same name |
| StationNames.PackedNameIsValid | broadcastradio/common/utils2x/Utils.cpp:238-246 | every packed name passes the validity check |
| StationNames.ValidIdExactly | broadcastradio/common/utils2x/Utils.cpp:199-281 | the rule of each identifier type by its number, with the bounds in decimal |
| StationNames.ValidSelectorExactly | broadcastradio/common/utils2x/Utils.cpp:283-290 | a selector is valid exactly if all its identifiers are |
| StationNames.CheckName | broadcastradio/common/utils2x/Utils.cpp:238-246 | the shifting loop decides that every byte up to the highest nonzero one is a capital or a digit |
| TunerMachine.CancelledTasksNeverRun | broadcastradio/2.0/default/TunerSession.cpp:214-230 | after a call that cancels, in every run, no earlier task runs except the one already in flight |
| TunerMachine.NoTaskRunsTwice | broadcastradio/common/utils/WorkerThread.cpp:45-76 | in every run each scheduled task runs at most once |
| TunerMachine.EarlierRunsFirst | broadcastradio/common/utils/WorkerThread.cpp:58-76 | in every run in which nothing is cancelled, the one of two waiting tasks that is due earlier runs first |
| TunerMachine.NothingAfterClose | broadcastradio/2.0/default/TunerSession.cpp:289-297 | after close at most one more callback, and once the task in flight has ended the program never changes and no callback is made |
| TunerMachine.SettledExactly | broadcastradio/2.0/default/TunerSession.cpp:49-82 | in every run of a module whose programs have valid types the flag is true while no tuning is pending, exactly if there is a band and a program |
| TunerMachine.TimedOutSeek | broadcastradio/2.0/default/TunerSession.cpp:130-140 | after a seek on an empty list has timed out nothing is pending and the flag is false |
| TunerMachine.StepNeverFindsTuneInProcess | broadcastradio/2.0/default/TunerSession.cpp:174-221 | in no run does step meet a tune in process; it is accepted exactly if the session is open and its frequency lies in a band |
| TunerMachine.StartExactly | broadcastradio/2.0/default/TunerSession.cpp:49-55 | a session starts on the lower end of the first band and tells the client, or on nothing |
| TunerMachine.TuneAcceptedExactly | broadcastradio/2.0/default/TunerSession.cpp:92-106 | tuning to a frequency is refused when closed, unsupported or outside 101 to 9999999 kHz, in this order, and accepted otherwise |
| TunerMachine.DelaysExactly | broadcastradio/2.0/default/TunerSession.cpp:40-47 | the delays in milliseconds |
| TunerMachine.LastCallWins | broadcastradio/2.0/default/TunerSession.cpp:92-212 | after an accepted call, however the worker is scheduled, once nothing is pending the session is where the call headed, the client has been told, and the delay of the call has passed |
| TunerMachine.Drains | broadcastradio/common/utils/WorkerThread.cpp:58-76 | from every session some steps of the worker and of time leave nothing queued or in flight |
| TunerMachine.CallCanArrive | broadcastradio/2.0/default/TunerSession.cpp:92-212 | every accepted call has a run of the worker alone that ends with nothing pending, where the call headed |
| TunerMachine.SeekArrives | broadcastradio/2.0/default/TunerSession.cpp:120-172 | a completed seek from a station is on the neighbouring one |
| TunerMachine.ListsAreWhole | broadcastradio/2.0/default/TunerSession.cpp:232-257 | in every run each list sent is the whole program list |
| TunerMachine.HonouredExactly | broadcastradio/2.0/default/TunerSession.cpp:232-257 | over all runs every answer to a filter is the list filtered by it exactly if every program of the radio satisfies the filter |
| TunerMachine.AnalogueListForDigitalRequest | broadcastradio/2.0/default/VirtualRadio.cpp:33-43 | asked for digital stations, the built-in AM/FM radio should send none, and some run sends another list |
| TunerMachine.StepArrives | broadcastradio/2.0/default/TunerSession.cpp:174-212 | a completed step has moved the frequency by one step of its band |
| TunerMachine.StepThenBack | broadcastradio/2.0/default/TunerSession.cpp:174-212 | in every two runs, a completed step and a completed step back restore the frequency exactly if no earlier band holds the frequency in between and the step can be undone in its band |
| TunerSessions.WorkerThread.TakeTask | broadcastradio/common/utils/WorkerThread.cpp:58-76 | a task is taken exactly if one is due, and it is one with the earliest due time |
| TunerSessions.WorkerThread.Schedule | broadcastradio/common/utils/WorkerThread.cpp:45-51 | the task is queued with its due time |
| TunerSessions.WorkerThread.CancelAll | broadcastradio/common/utils/WorkerThread.cpp:53-56 | the queue is empty; the task in flight stays |
| TunerSessions.TunerSession.constructor | broadcastradio/2.0/default/TunerSession.cpp:49-55 | the initial state of the machine |
| TunerSessions.TunerSession.TuneInternalLocked | broadcastradio/2.0/default/TunerSession.cpp:67-82 | lands on the first program tuned to, or on the selector, and tells the client |
| TunerSessions.TunerSession.Tune | broadcastradio/2.0/default/TunerSession.cpp:92-118 | the call takes the step of the machine, with its result |
| TunerSessions.TunerSession.Scan | broadcastradio/2.0/default/TunerSession.cpp:120-172 | the call takes the step of the machine for the list it sorted |
| TunerSessions.TunerSession.Step | broadcastradio/2.0/default/TunerSession.cpp:174-212 | the call takes the step of the machine, with its result |
| TunerSessions.TunerSession.AmFmRangeLocked | broadcastradio/2.0/default/TunerSession.cpp:299-312 | the band of the current frequency, if the tune is completed |
| TunerSessions.TunerSession.Cancel | broadcastradio/2.0/default/TunerSession.cpp:223-230 | the call takes the step of the machine |
| TunerSessions.TunerSession.CancelLocked | broadcastradio/2.0/default/TunerSession.cpp:214-221 | the queue is emptied and a tune on a valid program is completed |
| TunerSessions.TunerSession.StartProgramListUpdates | broadcastradio/2.0/default/TunerSession.cpp:232-257 | filters the list, then schedules the whole one; the call takes the step of the machine, with its result |
| TunerSessions.TunerSession.Close | broadcastradio/2.0/default/TunerSession.cpp:289-297 | the call takes the step of the machine |
| TunerSessions.TunerSession.RunTask | broadcastradio/2.0/default/TunerSession.cpp:111-114 | running the task in flight takes the step of the machine |
| TunerSessions.TunerSession.TakeTask | broadcastradio/common/utils/WorkerThread.cpp:66-73 | taking a task takes the step of the machine |
| Utf8.CheckUTF8Copy | confirmationui/support/src/cbor.cpp:81-109 | accepts exactly lead bytes with their 0 to 3 continuation bytes, the output then equals the input, and nothing beyond it is written |
| Utf8.OnesOfLead | confirmationui/support/src/cbor.cpp:90-102 | counting ones by shifting classifies every lead byte |
| Utf8.AcceptedConcat | confirmationui/support/src/cbor.cpp:81-109 | accepted strings may be joined |
| Utf8.ValidIsAccepted | confirmationui/support/src/cbor.cpp:81-109 | every string valid under section 4 of RFC 3629 is accepted |
| Utf8.ValidExactly | confirmationui/support/src/cbor.cpp:81-109 | an accepted string is valid under section 4 of RFC 3629 exactly if none of its lead bytes starts an overlong form, a surrogate or a number above U+10FFFF |
| Utf8.AcceptsMoreThanValid | confirmationui/support/src/cbor.cpp:81-109 | an overlong NUL and a surrogate are accepted and not valid |
| Cbor.WriteBytes | confirmationui/support/src/cbor.cpp:30-54 | the value in network order, or an error and nothing written |
| Cbor.BigEndianBytes | confirmationui/support/src/cbor.cpp:26-50 | the bytes picked by shifts are the network order |
| Cbor.WriteHeader | confirmationui/support/src/cbor.cpp:58-79 | the header is written and the cursor advanced by its length exactly if there is room; otherwise an error, and in any case nothing outside the room is touched |
| Cbor.HeaderRoundTrip | confirmationui/support/src/cbor.cpp:58-79 | a reader after section 2.1 of RFC 7049 recovers type and value, whatever follows |
| Cbor.HeaderExactly | confirmationui/support/src/cbor.cpp:58-79 | the bytes of each of the five forms |
| Cbor.HeaderIsShortest | confirmationui/support/src/cbor.cpp:63-77 | no other header for the pair is as short: the canonical form of section 3.9 of RFC 7049 |
| Cbor.HeadersArePrefixFree | confirmationui/support/src/cbor.cpp:58-79 | no header is a proper prefix of another |
| Cbor.ItemRoundTrip | confirmationui/support/include/android/hardware/confirmationui/support/cbor.h:234-328 | any nested item is read back from its encoding, whatever follows |
| Cbor.NumberExamples | confirmationui/support/include/android/hardware/confirmationui/support/cbor.h:234-328 | examples of appendix A of RFC 7049: numbers |
| Cbor.StringExamples | confirmationui/support/include/android/hardware/confirmationui/support/cbor.h:234-328 | a byte string and a text |
| Cbor.ArrayExample | confirmationui/support/include/android/hardware/confirmationui/support/cbor.h:234-328 | a nested array |
| Cbor.MapExample | confirmationui/support/include/android/hardware/confirmationui/support/cbor.h:234-328 | a map |
| Cbor.EncodingsArePrefixFree | confirmationui/support/include/android/hardware/confirmationui/support/cbor.h:234-328 | different items have different encodings, none a prefix of another |
| Cbor.Write | confirmationui/support/include/android/hardware/confirmationui/support/cbor.h:234-328 | writing an item succeeds exactly if its encoding fits and its texts are accepted, leaves that encoding in the buffer and touches nothing outside its room |
| Cbor.WriteNumber | confirmationui/support/include/android/hardware/confirmationui/support/cbor.h:234-242 | one number, negative ones by their complement |
| Cbor.WriteText | confirmationui/support/include/android/hardware/confirmationui/support/cbor.h:269-279 | one checked text |
| Cbor.WriteByteString | confirmationui/support/include/android/hardware/confirmationui/support/cbor.h:281-290 | one byte string |

## Left out
- Memory: allocation failures, the size limit of `std::vector`, and 32-bit `int` positions in `find`.
- Bytes that the source leaves uninitialised when a blob or a packet is resized are modelled as zero; no result depends on them for well-formed input.
- `std::sort`, `lower_bound` and `priority_queue`: modelled by their contracts, with simple loops behind them.
- Hci.H4Protocol.Send: the retry loop is modelled for drivers that answer something other than EAGAIN after finitely many attempts.
- Hci.HciPacketizer.OnDataReady: the callback made when a packet is complete is modelled as a result that the protocol object acts on; nothing else runs in between.
- EventInterception.InternalCommand.HandleIncomingEvent: while a callback waits, requires an event that is not empty and a Command Complete of at least five bytes, because the source reads them without a size check.
- LowPower.VendorInterface.Close: called only while no `Send` is under way, because the source deletes the transport without the lock; its disabling of low-power mode and the stopping of the watcher are one step.
- LowPower.VendorInterface.Open: the calls that load and set up the library are one success flag; the transport is the UART one.
- LowPower.VendorInterface.OnFirmwareConfigured: comes only while the interface is open; the library that calls it is unloaded by closing.
- TunerSession: the two halves of an API call are one step, since the session lock is held and only such calls schedule; the condition variable, spurious wake-ups and the shutdown of the thread, whose loop condition is read outside the lock, are not modelled.
- ParamStreams.Serialize: writes into a good stream; failures of that stream are those of its owner.
- EventInterception.InternalCommand.BeginTransmit: the library transmits one command at a time outside its callbacks, its writes are seen in the order of the code, writing the opcode and sending are one step, and a callback finishes before the next event is handled.
- Serialization of the union bytes that a tag does not select; they are never written.
- Wrappers around other libraries, stubs and service mains, `MctProtocol`, the audio, camera and other services: no logic, or only easy members.
- `AuthorizationSetBuilder`, metadata and vendor information of programs, `updateProgramList`, `ByteBufferProxy` equality and the ordering of HMAC parameters.
- Broadcast radio 1.0 and 1.1, whose tuners repeat the one modelled here with less state.
