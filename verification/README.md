# XD-2031 verification model

XD-2031 lets Commodore computers use the file system of a PC: a firmware on a small bus device speaks the
computer's bus on one side and, over a serial line, a packet protocol with a server program on the other.
This project models seven parts of the two programs in Dafny and proves what they are for.

Where the source changes state in place, so does the model: classes and arrays with the source's fields and
loops. Each such method is proved equal to a function of its inputs or of the old state, and the lemmas are
about these functions. Waiting loops and interrupts are steps of an environment that is a parameter, so that
a statement holds for every timing. No lemma uses Dafny's automatic induction: each proof is what its body says.

| file | part |
|---|---|
| `Wire.dfy` | constants and value types of the wire protocol |
| `Packet.dfy`, `Endpoint.dfy`, `Channel.dfy`, `ChannelRuns.dfy` | the double buffered channel as a byte stream |
| `Framing.dfy`, `SerialTx.dfy`, `SerialRx.dfy`, `SerialRxRuns.dfy`, `InDevice.dfy`, `SerialRuns.dfy` | framing on the serial line, both directions |
| `WriterRuns.dfy` | a channel's writer and the serial line together |
| `Wildcard.dfy`, `WildcardLimits.dfy` | the wildcard matchers, and the patterns that one of them does not decide |
| `DirConverter.dfy` | the block count of a directory entry |
| `Names.dfy`, `NamePacket.dfy`, `NameAssembly.dfy`, `NameRoom.dfy`, `NameParse.dfy`, `NameRuns.dfy`, `NameLines.dfy` | file names, from the command buffer to the server, and the lines they are written on |
| `Crc16.dfy`, `NvConfig.dfy` | the configuration store |
| `MergeRepair.dfy` | the vote over disk images |

## What is proved, part by part

**Channel.** For every schedule of callbacks, a reader gets the server's packets, each converted exactly once,
as one plain byte stream with EOF on its last byte (`ReadRun`, `StreamIs`, `ReadsInOrder`, `ReadShows`); a
writer's packets carry exactly the bytes put, a flush holds none of them back, and they are cut exactly where
the flushes and the packet size say, a packet being marked as the end exactly if its last byte was put with a
flush (`WriteRun`, `WriteConserves`, `FlushDelivers`, `PacketsCut`). Both runs record what every delay finds,
and each record keeps the rule of the double buffer (`Lawful`): in every state exactly which slot is in flight.
It is never the one being read or filled; a packet just submitted by a flush is in flight in the current slot
until the flush has switched the slots. No poll of a packet in flight goes unrecorded. All waiting loops end.

**Serial line.** Whatever the UART's readiness, the arrival of FS_SYNC and the way the server's reads cut the
stream, the server dispatches the frames of the packets submitted, in order (`RoundTrip`), and each FS_SYNC that
comes in is mirrored once, between frames (`TransmitRun`, and in the receiver `FramesInOrder`). Joined with the
channel: of what the server dispatches, the frames of a channel carry the bytes put at it, whatever the timing
of both and whatever other channels send in between (`WriteOverLine`). The firmware's receiver is followed over
any bytes and any requests between them (`ReceiveRun`). Framing is kept by exactly the frames of 3 to 131 bytes
(`FramingKept`, `ServerReply`): the count is kept in a signed byte, which wraps around for 128 to 131, once more
while it is counted down for 131; every other length byte stands for a frame of 4 bytes. Whole frames are
delivered once and in order (`FramesInOrder`), and a request waits until the first reply for its channel, which
goes to its own callback (`RequestKept`, `ReplyFinds`). Both end at the channel byte 255, the number of a free
slot: it meets a packet that is not there (`NothingMet`), and a request that fills a slot which is just taking
such a frame has its callback made for this frame (`RequestTaken`, with `RequestLost` as an example). A request
is served, in every run from then on, if and only if its slot is not taking a frame with a channel byte of 128
or more when it is filled (`RequestServed`).

**Wildcards.** A name is in the language of a pattern if it consists of parts that the pattern's characters
stand for (`MatchesMeans`). `advanced_match` is sound and ends on all inputs. For names without `*` it decides
the patterns of whose inner segments (between two stars) each is lossless, so that a mismatch drops no possible
start, or harmless, so that it does not matter which occurrence is found, as for the last one in a pattern that
ends in a star, or for one whose search cannot end within the text behind the last star, for which it is enough
that the two do not overlap (`AdvancedDecides`, `ContainsDecided`, `MissedByOverlap`). Conversely, every other
segment has a name of the language that is refused, which is built: behind a letter between two later stars
(`LossyRefused`) or with the text behind the last star (`TextRefused`). So the class is exact, for every pattern
(`DecidedExactly`). With one star the exact condition is given for all names.

**Block count.** The 16 bit computation of `get_lineno` equals one formula; the count is that of 254 byte blocks
or one less, exactly when is an equivalence about the base 128 digit sum, and only a file whose last block
holds one or two bytes can be affected, 32513 bytes being the first.

**Names.** A command line is split in place, the packet is assembled at the start of the same buffer, and the
server takes it apart again. `Deliver` follows a line through all of it. Nothing checks the room in front of the
moved line. What is needed is the header plus one byte for each name: 5 bytes for a command or a directory, 10
for an open, 11 where an `int` has 16 bits (`RoomNeeded`). For every line the exact condition is given on the
parsed buffer (`LineExact`): that each name is clear of what is written before it has been read, since otherwise
the drive byte of the first one that is not overwrites its first character (`RoomExact`); and, for lists without
named drives, wherever the header ends, that each byte overwritten too early is overwritten by itself
(`ListExact`). A plain file name of an open needs two free bytes, or one if it begins with 255
(`PlainLineExact`), so that `A` with one free byte fails. A line as long as the buffer, and an empty name right
behind a carriage return, make the code access bytes outside; the parsers report these as faults, exactly when
they happen (`ParseFilename`). Where an `int` has 16 bits, as on the AVR, `%d` prints record lengths of 32768
and more as negative numbers, and the server reads no record length (`PacketRead`, `LineDelivered`). The packet
of a disk copy has no option string, so that the server takes its target drive for one, or, for drive 0, for an
empty one; no disk copy arrives as it was meant (`DiskCopyMisread`, `DiskCopyNeverDelivered`). What a line means
is also said from the other side: requests are printed on a line, with drives, lists, targets and options, and
the line means the request again, for all of them (`ShownParsed`, `ListParsed`, `TargetCommand`, `LettersOpen`,
`RelativeOpen`), and so the server gets it (`OpenArrives`, `CommandArrives`). A number in front of a colon is a
drive if the byte kept of it is at most 9 (`NumberedDrive`), any other text a drive's name (`NamedDrive`).

**Configuration store.** From erased memory on, for every sequence of saves and of damages, the chain of blocks
behaves as a map from bus name to the values saved last, in which damage to a block's checksum, or to anything
from its version to its last data byte, loses the names from this block on and no other, and damage elsewhere
does nothing (`StoreRun`, `DamageLoses`, `DamageHarmless`, `LastSave`, `StoredStays`). A block with one byte
damaged, or two adjacent ones, is accepted exactly when neither belongs to the checksum or to what it covers
(`DamageRejected`); the checksum also finds every burst of up to 16 bits that touches three bytes
(`BurstFound`). The names in front of a damaged block are a chain of their own (`DamagedChain`), and the next
new name overwrites the damaged block and ends the chain regularly (`Save`). The default split of the memory
into three blocks fits exactly when the last address is a multiple of three (`DefaultSplit`); otherwise a fourth
block is let in that does not fit.

**Merged images.** Each merged block is chosen by a plurality vote, the first of the contents that most images
have read (`MergeRepair`, `WeakChoice`, `StrongChoice`). When no two images agree on a weak block, the first
image's copy is taken even if it was never read (`WeakPicksUnread`); `WeakChoiceRead` says exactly when the
chosen content was read by someone.

## Model

| member | source | states |
|---|---|---|
| Packets.Packet.constructor | firmware/packet.h:103-111 | an empty packet with a buffer of its own |
| Packets.Packet.Reset | firmware/packet.h:113-118 | empties the packet and sets the channel, the type stays |
| Packets.Packet.SetWrite | firmware/packet.h:142-152 | refused exactly if the data would not fit, and then nothing changes; the read pointer stays in any case |
| Packets.Packet.SetFilled | firmware/packet.h:158-165 | the content is the given number of bytes, to be read from the start |
| Packets.Packet.WriteChar | firmware/packet.c:9-16 | appends the byte to the content; a full packet drops it |
| Packets.Packet.ReadChar | firmware/packet.h:187-190 | the byte at the read pointer, which moves on |
| Packets.Packet.Next | firmware/packet.h:208-212 | moves the read pointer, true iff something is left |
| Endpoints.Endpoint.Submit | firmware/serial.c:398-431 | the packet's content is logged for the wire, and the reply will come into the same packet |
| Endpoints.Endpoint.Step | firmware/serial.c:321-335 | one poll: the exchange gets strictly closer to its end or the environment's pause does; when it is done the packet holds exactly the reply; without an exchange no packet changes |
| Channels.StreamStep | firmware/channel.c:279-342 | the stream of the remaining replies is the next packet, converted, followed by the rest, and never empty |
| Channels.Channel.constructor | firmware/channel.c:167-203 | a fresh channel: the reader has the whole stream before it, nothing is submitted |
| Channels.Channel.OnPull | firmware/channel.c:70-91 | the two state changes of the pull callback |
| Channels.Channel.OnPush | firmware/channel.c:493-523 | the state changes of the push callback |
| Channels.Channel.DelayReader | firmware/channel.c:279-342 | a callback in the middle of a delay only completes the outstanding pull; the bytes still to be read stay the same; what the delay found is recorded and lawful |
| Channels.Channel.AwaitPull | firmware/channel.c:290-298 | the waiting loop ends, for every schedule, with the pull completed |
| Channels.Channel.Pull | firmware/channel.c:124-159 | submits one FS_READ with an empty packet that is not the one being read; a synchronous pull has its reply on return |
| Channels.Channel.Preload | firmware/channel.c:279-342 | a packet is there to read from, converted, and no byte of the stream is lost or gained; -1 for a write-only channel |
| Channels.Channel.ConvertFirst | firmware/channel.c:299-320 | the first packet is converted once, before any byte of it is read |
| Channels.Channel.ConvertSecond | firmware/channel.c:321-337 | the packet behind the one being read is converted once; the one being read is untouched |
| Channels.Channel.Head | firmware/packet.h:226-230 | the read pointer shows the next byte of the stream, and the EOF test is true exactly on the last one |
| Channels.Channel.CurrentByte | firmware/channel.c:351-355 | the next byte of the stream, EOF exactly with the last one, and nothing is consumed |
| Channels.Channel.Next | firmware/channel.c:360-386 | consumes exactly one byte of the stream, whatever is pulled in the background |
| Channels.Channel.Refill | firmware/channel.c:447-491 | goes on with the other packet without losing a byte |
| Channels.Channel.Get | firmware/channel.c:644-682 | the next byte with EOF exactly at the end; it is consumed unless preload is set; -1 for a write-only channel |
| Channels.Channel.DelayWriter | firmware/channel.c:559-620 | a callback in the middle of a delay touches no packet but the one in flight, which is the other one, or the current one while it is being submitted |
| Channels.Channel.AwaitPush | firmware/channel.c:567-572 | the waiting loop ends, for every schedule, with nothing in flight |
| Channels.Channel.WriteFlush | firmware/channel.c:559-620 | the bytes pending go out as one packet, marked as the end if asked for, and the other buffer is empty; with sync nothing is in flight on return |
| Channels.Channel.Put | firmware/channel.c:526-557 | the byte is appended, and a full or flushed packet goes out, as the specification of the stream says |
| Channels.Channel.Flush | firmware/channel.c:240-276 | what is pending goes out; nothing is in flight afterwards, and a writer has an empty buffer and can be used again |
| Channels.Channel.Close | firmware/channel.c:388-440 | everything put is on the wire, a lone carriage return if nothing was put, and the close request comes last |
| ChannelRuns.ReadRun | firmware/channel.c:644-682 | over every run of reads and delays, and every schedule, a channel returns what the plain byte stream of the packets, each put through the converter once, returns, and asks for no more packets than there are; at every delay a pull is in flight exactly in PRELOAD and PULL2ND, in PULL2ND never in the slot being read |
| ChannelRuns.StreamIs | firmware/channel.c:312-334 | without a converter the stream is the packets' content joined; with one it is what the converter makes of each packet, once, joined |
| ChannelRuns.ReadsInOrder | firmware/channel.c:644-682 | the bytes consumed are a prefix of the stream, one for each read without preload |
| ChannelRuns.ReadShows | firmware/channel.c:644-682 | each read shows the byte behind those consumed before it, EOF exactly with the last byte |
| ChannelRuns.ReadToTheEnd | firmware/channel.c:644-682 | with enough reads the whole stream is consumed |
| ChannelRuns.WriteRun | firmware/channel.c:526-620 | over every run of puts, flushes and delays, and every schedule, the packets on the wire are those of the specification, which knows no schedule; at every delay a push is in flight exactly in FILLTWO, in the slot being filled only while a flush submits it |
| ChannelRuns.PutConserves | firmware/channel.c:526-620 | at any time the packets submitted and the bytes pending are together the bytes put, with one end mark for each flushing put |
| ChannelRuns.WriteConserves | firmware/channel.c:401-440 | the data packets of a whole run carry 1 to 64 bytes each and together exactly the bytes put, a lone 0x0d if there were none; as many are marked as the end as there were flushing puts; then the close |
| ChannelRuns.FlushDelivers | firmware/channel.c:526-620 | once a run ends in a flushing put or a flush of the channel, its packets carry all bytes put so far, and the wire starts with them whatever is called later |
| ChannelRuns.PacketsCut | firmware/channel.c:526-620 | at any time a packet is marked iff its last byte was put with a flush, one with less than 64 bytes ends at a flush, and no flush falls inside a packet |
| ChannelRuns.WireCut | firmware/channel.c:401-440 | the same for the data packets of a whole run, of which the last one may be shorter |
| Framing.Frame | firmware/serial.c:155-185 | a frame is three bytes longer than the payload |
| Framing.DecodeRestShort | pcserver/in_device.c:469-490 | at most 254 bytes are left over, and they hold no further frame |
| Framing.DecodeAppend | pcserver/in_device.c:469-490 | decoding a stream piece by piece, with what was left over in front of the next piece, is decoding it at once |
| Framing.DecodeCut | pcserver/in_device.c:469-490 | a stream with other bytes between its frames: however it is cut into frames, bytes to pass over (127, or in front of one below 3) and a rest, these are the frames and the rest that decoding gives |
| Framing.DecodeEncode | pcserver/in_device.c:469-490 | decoding frames with FS_SYNC bytes between them gives exactly the frames |
| Framing.FrameInjective | firmware/serial.c:155-185 | different packets have different frames |
| Framing.RoundTripExact | pcserver/in_device.c:469-490 | a packet survives the line if and only if it has at most 252 bytes and is not of type FS_SYNC |
| InDevices.InDevice.Store | pcserver/in_device.c:431-458 | the bytes read are appended to the pending ones, within the buffer |
| InDevices.InDevice.Compact | pcserver/in_device.c:459-465 | moving the pending bytes to the front keeps them; done when the end of the buffer is reached or nothing is pending |
| InDevices.InDevice.Parse | pcserver/in_device.c:469-490 | dispatches exactly the frames of the pending bytes and keeps the rest |
| InDevices.InDevice.Loop | pcserver/in_device.c:425-493 | one call with any read: the frames of pending and new bytes are dispatched; a read error changes nothing; a full buffer gets room again |
| InDevices.ReceiveRun | pcserver/in_device.c:425-493 | over any number of calls and any read sizes, the frames are those of the stream read so far decoded at once, at most 254 bytes stay pending, and reading goes on |
| InDevices.ChunkIndependence | pcserver/in_device.c:425-493 | two ways of cutting a stream into reads dispatch the same frames |
| SerialTransmit.Transmitter.ReadCharFromPacket | firmware/serial.c:155-185 | the automaton gives the bytes of the packet's frame one after the other, then -1 |
| SerialTransmit.Transmitter.AdvanceSlots | firmware/serial.c:190-198 | the packets behind the first one move up |
| SerialTransmit.Transmitter.Send | firmware/serial.c:200-215 | what is on the wire and what is left of the frame are together the frames accepted; each call gets further or the UART gets closer to ready |
| SerialTransmit.Transmitter.EchoSync | firmware/serial.c:229-239 | an FS_SYNC is mirrored behind all frames accepted before it, at a frame boundary |
| SerialTransmit.Transmitter.Delay | firmware/serial.c:321-335 | whatever comes in, the packets accepted stay the same, and exactly one FS_SYNC is added between them for each one that has come in |
| SerialTransmit.Transmitter.Submit | firmware/serial.c:356-375 | waits for the slot, for every readiness of the UART, and adds exactly this packet |
| SerialTransmit.Transmitter.Flush | firmware/serial.c:341-345 | afterwards the wire is exactly the encoding of what was accepted |
| SerialReceive.Countdown | firmware/serial.c:251-313 | the count kept in a signed byte is used up exactly when a frame of 3 to 131 bytes is complete, and after 4 bytes for every other length |
| SerialReceive.Receiver.FindSlot | firmware/serial.c:255-271 | the first slot of the channel, taken iff its packet is large enough; a fault iff it has no packet |
| SerialReceive.Receiver.OnIdle | firmware/serial.c:227-250 | only a reply type starts a frame; an FS_SYNC is noted |
| SerialReceive.Receiver.OnLen | firmware/serial.c:251-254 | takes any length byte and waits for the channel |
| SerialReceive.Receiver.OnChannelno | firmware/serial.c:255-287 | any channel byte: a frame without payload is complete, with its callback; otherwise its payload is collected or ignored |
| SerialReceive.Receiver.OnData | firmware/serial.c:288-304 | collects the payload, and calls back exactly when the frame is complete |
| SerialReceive.Receiver.OnIgnore | firmware/serial.c:305-310 | swallows the frame up to its end |
| SerialReceive.Receiver.PushData | firmware/serial.c:222-314 | for every byte in every state the step of the automaton over whole frames, in which there is no signed byte and no count |
| SerialReceive.Receiver.Look | firmware/serial.c:410-424 | one turn of the wait: the first slot that is free or the channel's own, -1 if there is none |
| SerialReceive.Receiver.Register | firmware/serial.c:426-428 | the slot found holds the request's packet and callback, even in the middle of a frame, and nothing else changes |
| SerialReceiveRuns.ReceiveRun | firmware/serial.c:222-431 | from the start, over every sequence of bytes and of requests looking for a slot and filling it, the receiver does what the steps of the automaton say |
| SerialReceiveRuns.FramingKept | firmware/serial.c:222-314 | behind these bytes the receiver is between two frames, and nowhere inside them, iff they begin with a reply type, have the length that their length byte stands for, and meet no slot without packet |
| SerialReceiveRuns.FrameDelivered | firmware/serial.c:222-314 | a whole frame, with requests anywhere between its bytes, has one callback made with exactly its payload iff a slot takes it when its channel byte comes in |
| SerialReceiveRuns.FramesInOrder | firmware/serial.c:222-314 | over every run of such frames and of other bytes the callbacks are exactly those of the frames taken, each once and in order, and exactly the FS_SYNC bytes between frames are mirrored |
| SerialReceiveRuns.StaysConsistent | firmware/serial.c:398-431 | whatever comes in between looking and filling, a request fills a free slot or its channel's own; a frame for a channel is delivered to a slot of this channel |
| SerialReceiveRuns.FillWaits | firmware/serial.c:398-431 | a request that is the only one of its channel waits once it has filled its slot, unless the slot is just taking a frame for the channel byte 255 |
| SerialReceiveRuns.RequestKept | firmware/serial.c:222-431 | whatever comes in and whoever else makes requests, a waiting request stays in its slot until the first reply for its channel is delivered, and that goes to its own callback |
| SerialReceiveRuns.ReplyFinds | firmware/serial.c:222-431 | the next frame for a waiting request's channel leads to its callback with exactly the payload, if its packet is large enough, and else to none |
| SerialReceiveRuns.ReplyFrees | firmware/serial.c:275-304 | with the last byte of its reply the request's slot is free, unless the callback asks to keep it |
| SerialReceiveRuns.RequestTaken | firmware/serial.c:264-304 | a request that has filled a slot taking a frame with a channel byte of 128 or more gets its callback made for that frame, once it is complete, whatever else comes in; the slot is free then unless the callback keeps it |
| SerialReceiveRuns.RequestServed | firmware/serial.c:222-431 | a request, alone with its channel and its callback, has its callback made for its own channel first, in every run behind the filling of its slot, iff the slot is not taking such a frame then |
| SerialReceiveRuns.RequestLost | firmware/serial.c:264-304 | a run in which a frame for the channel byte 255 takes away a request made while it came in |
| SerialReceiveRuns.NothingMet | firmware/serial.c:264-270 | before any request, the channel byte 255 of a reply makes the code use a packet that is not there |
| SerialRuns.TransmitRun | firmware/serial.c:200-375 | for every readiness and every arrival of FS_SYNC the bytes sent are the frames submitted, in order, and between frames only as many FS_SYNC as have come in during the delays |
| SerialRuns.RoundTrip | pcserver/in_device.c:425-493 | sent through the firmware's transmitter and read in any pieces by the server, the frames dispatched are those submitted |
| SerialRuns.ServerReply | pcserver/in_device.c:123-134 | behind a packet the server writes, the receiver is between two frames, and nowhere inside it, iff its type is a reply type, it has at most 128 bytes of payload and its channel meets no slot without packet |
| WriterRuns.WriteOverLine | firmware/channel.c:526-620 | bytes put at a channel and its close, with packets of other channels and delays anywhere between its packets: the frames of the channel that the server dispatches are those of the specification, carry exactly the bytes put, and the close comes last |
| WriterRuns.WrittenArrives | firmware/channel.c:401-440 | the frames of a run's packets are data frames of the channel with the bytes put, and a close |
| WriterRuns.FramesOfChannel | pcserver/in_device.c:469-490 | picking a channel's frames out of all is the same as picking its packets |
| Wildcard.RunSound | common/wildcard.c:108-165 | every state of the loop that leads to true has a match left, from here or from the restart point |
| Wildcard.MatchesMeans | common/wildcard.c:101-106 | the language of a pattern: names that consist of one part for each of its characters, any string for a star, one character for a `?`, the character itself otherwise |
| Wildcard.AdvancedSound | common/wildcard.c:108-165 | a name that is accepted is in the language of the pattern, for all strings |
| Wildcard.AdvancedDecides | common/wildcard.c:108-165 | for names without star and patterns whose inner segments are each lossless or harmless, accepted iff in the language |
| Wildcard.ContainsDecided | common/wildcard.c:108-165 | a text between two stars is decided, whatever it is: accepted iff the name contains it |
| Wildcard.MissedByOverlap | common/wildcard.c:136-160 | a search cannot end within the last text if the segment does not overlap it, and only then for a text at most one character longer than the segment |
| Wildcard.FirstOnceLossless | common/wildcard.c:136-160 | a segment without `?` whose first character does not come again is lossless |
| Wildcard.AdvancedDecidesStarFree | common/wildcard.c:108-165 | a pattern without star is decided for every name |
| Wildcard.AdvancedOneStar | common/wildcard.c:108-165 | with one star and any name, accepted iff in the language and not a star facing the pattern's star in a name of another length |
| Wildcard.AdvancedIncomplete | common/wildcard.c:136-160 | a name of the language of a pattern with three stars that is refused |
| WildcardLimits.LossyRefused | common/wildcard.c:136-160 | for every segment that is not lossless and has a letter between two later stars, other than a single `?`, there is a name of the language that is refused |
| WildcardLimits.DecidedExactly | common/wildcard.c:108-165 | every pattern is decided for all names without star iff its inner segments are each lossless or harmless |
| WildcardLimits.TextRefused | common/wildcard.c:136-160 | for every segment that is not lossless and whose search can end within the text behind the last star there is such a name too |
| Wildcard.ClassicDecides | common/wildcard.c:37-57 | the classic matcher decides the pattern cut behind its first star, for all inputs |
| Wildcard.TruncatedShape | common/wildcard.c:30-35 | the cut pattern is the pattern up to its first star, and all of it without a star |
| Wildcard.AdvancedImpliesClassic | common/wildcard.c:37-165 | what the advanced matcher accepts, the classic one accepts |
| Wildcard.MatchersAgree | common/wildcard.c:37-165 | the two agree when the only star is the last character, or there is none |
| Wildcard.AdvancedMatch | common/wildcard.c:108-165 | the loop with its restart pointers ends, and returns the specified value |
| Wildcard.ClassicMatch | common/wildcard.c:37-57 | the loop returns true iff the cut pattern matches |
| Wildcard.ComparePattern | common/wildcard.c:238-245 | sound for both kinds of wildcards, complete as far as the matchers are |
| DirConverter.GetLineno | firmware/dirconverter.c:64-156 | the computation in 16 bit windows equals the block count formula; for a header it is the drive |
| DirConverter.FromWindows | firmware/dirconverter.c:99-152 | the byte sums, carried and cut to the middle bytes, are the series divided by 256, saturated |
| DirConverter.SeriesDigits | firmware/dirconverter.c:109-134 | the truncated series falls short of x/127 by the base 128 digit sum |
| DirConverter.SeriesError | firmware/dirconverter.c:109-146 | the series gives x/254 or one less, and x/254 exactly under a condition on the digit sum |
| DirConverter.BlockCountError | firmware/dirconverter.c:64-156 | for every size the count is the number of blocks or one less, up to saturation |
| DirConverter.BlockCountExact | firmware/dirconverter.c:64-156 | for every size, exactly when the count is right |
| DirConverter.BlockCountShort | firmware/dirconverter.c:64-156 | only a last block of one or two bytes can be missed |
| DirConverter.BlockCountSmall | firmware/dirconverter.c:64-156 | right for every size up to 32512 |
| DirConverter.FirstShort | firmware/dirconverter.c:64-156 | 32513 bytes are shown as 128 blocks instead of 129 |
| DirConverter.BlockCountMonotone | firmware/dirconverter.c:64-156 | a longer file is never shown with fewer blocks |
| DirConverter.EstimateUnchanged | firmware/dirconverter.c:105-146 | a block count marked as an estimate is shown as it is |
| Names.ScanDecimal | pcserver/openpars.c:75-78 | scanning a printed number gives the number and its length |
| Names.Find | common/name.c:91-92 | the position of the first such character, or the length of the string |
| NamePackets.HeaderSize | common/name.c:439-451 | the option string takes at most 9 bytes, 10 where an int has 16 bits |
| NamePackets.ProcessOptions | pcserver/openpars.c:37-101 | the scanning loop returns what the recursive reading of the option string gives |
| NamePackets.HeaderRead | pcserver/openpars.c:37-101 | the server reads the type the firmware printed, and the record length unless it was printed as a negative number |
| NameLines.ServerOptions | pcserver/openpars.c:37-101 | the codes 1 to 4 for S, P, U and L, 255 without a type, and any number behind "T=L" |
| NameLines.PacketBytes | common/name.c:389-451 | the bytes of a packet with one name: the option string, the drive, a drive name with a colon, the name |
| NamePackets.NameRead | common/name.c:476-513 | one name is read back from its packet form iff it has no NUL, and a drive name without colon exactly when the drive is not a number |
| NamePackets.NamesRead | common/name.c:546-560 | a list of names is read back iff all are clean and there is room for them |
| NamePackets.PacketRead | common/name.c:524-563 | a packet is read back completely iff its names are clean and fit, and its record length belongs to an L type and is printed as a positive number |
| NamePackets.FilenameFromPacket | common/name.c:476-513 | the pointers lead to the drive name and the name, with a NUL over the colon; the rest of the packet is untouched; faults as specified |
| NamePackets.ParseFilenamePacket | common/name.c:524-563 | all pointers lead to the names of the packet, whatever was overwritten between them; a fault iff the specification has one |
| NameAssembly.RoomEnough | common/name.c:412-423 | one free byte for each name besides the header is enough for every list of names in a line |
| NameAssembly.RoomTight | common/name.c:412-423 | where the names stand one behind the other, each is read before it is overwritten iff there is that room |
| NameRooms.RoomExact | common/name.c:389-410 | for names one behind the other, gaps and drives included, whose drives differ from what they would hit, the bytes assembled are the right ones iff each name is clear of what is written before it is read |
| NameRooms.OneTooFew | common/name.c:389-410 | where the packet so far ends at the start of a name, the packet has the drive byte of the name in place of its first character |
| NameRooms.ListExact | common/name.c:389-410 | any list of names without named drives, wherever they and the header's end are: the packet is right iff each byte of a name that is overwritten before the name is copied is overwritten by itself |
| NameRooms.OneNameExact | common/name.c:389-410 | a single name, wherever it stands: the packet is right iff header and drive leave each byte of it that they hit as it is |
| NameRooms.PlainNameExact | common/name.c:389-410 | a plain name of an open needs two free bytes in front of it, or one if it begins with 255 |
| NameAssembly.AssembleDrivename | common/name.c:394-399 | the drive name with its colon, nothing for an empty one, from what the buffer then holds; said when it leaves the buffer |
| NameAssembly.AssembleFilename | common/name.c:389-410 | writes drive, drive name and name one after the other, each read from what the ones before it have left, with any room |
| NameAssembly.AssembleRight | common/name.c:389-410 | a name that is clear of the place it is written to is written as it was |
| NameAssembly.AssembleHeader | common/name.c:439-451 | the option string with its NUL |
| NameAssembly.AssembleFilenamePacket | common/name.c:424-467 | the buffer afterwards, for every room and every position of the names; said when the packet leaves the buffer |
| NameAssembly.PacketRight | common/name.c:424-467 | with names in the same buffer that are clear of the packet, the packet is the same as from a copy elsewhere; a disk copy is six fixed bytes |
| NameParsing.SegmentClean | common/name.c:90-140 | every name that is parsed survives the transport |
| NameParsing.ColonInSegment | common/name.c:91-102 | the colon that counts is the first one of the text before the comma |
| NameLines.NumberedDrive | common/name.c:104-112 | spaces, a sign and digits in front of the colon are the drive of this value if the byte kept of it is at most 9, else the name of a drive |
| NameLines.DigitDrive | common/name.c:104-112 | the digit n in front of the colon is drive n |
| NameLines.NamedDrive | common/name.c:104-112 | any other text in front of the colon is the name of a drive |
| NameLines.DecimalDigits | common/name.c:104-112 | the values and weights of decimal digits |
| NameLines.ShownParsed | common/name.c:90-140 | a name printed with its drive number, its drive name, a single colon or nothing in front is parsed as this name |
| NameLines.ListParsed | common/name.c:218-234 | a printed list of names is parsed as these names, on the default drive where they have none, or refused when it is too long |
| NameParsing.CutDrive | common/name.c:102-113 | the text before the colon becomes a string, and a number up to 9 or a named drive |
| NameParsing.CutComma | common/name.c:115-120 | the name ends at the comma, behind which the rest of the text is intact |
| NameParsing.CutCr | common/name.c:121-125 | a carriage return at the end of the name is dropped; a fault iff the name is empty and a carriage return, or no byte at all, stands in front of it |
| NameParsing.ParseDrive | common/name.c:90-140 | the pointers lead to the name and its drive name within the text, and the rest behind the comma is a string of its own; a fault iff the name is empty behind a carriage return |
| NameParsing.ParseFiles | common/name.c:218-234 | up to four names, in order and without overlap, each with the default drive where it has none; a fifth is an error; faults as specified |
| NameParsing.ParseTarget | common/name.c:197-210 | the target in front of the '=', and the rest behind it |
| NameParsing.ParseSplit | common/name.c:197-234 | target and files around the '=', or an error without one |
| NameParsing.FindDriveCopy | common/name.c:187-195 | true iff the text is digit, '=', digit |
| NameParsing.ParseText | common/name.c:170-235 | the name info stands for what the text asks for, special forms included |
| NameLines.ListCommand | common/name.c:153-236 | a command with a printed list asks for these names, a syntax error for more than four |
| NameLines.TargetCommand | common/name.c:197-234 | a printed target, '=' and a list: the target and the names, those without a drive on the target's |
| NameLines.NoTarget | common/name.c:212-216 | such a command without '=' is a syntax error |
| NameLines.ShortForms | common/name.c:170-195 | a directory without text or of one digit, and "t=s" |
| NameLines.BinaryCommand | common/name.c:162-168 | the parameter of P and T is everything behind the spaces |
| NameLines.DiskCopyBytes | common/name.c:424-437 | "t=s" is sent as t, '*', 0, s, '*', 0 |
| NameParsing.ParseCmdPars | common/name.c:153-236 | the name info stands for the request of the command line, its names in place and in order |
| NameParsing.ParseOptions | common/name.c:252-312 | the loop over the options returns what they specify, or an error for a repeated or unknown one |
| NameParsing.ParseOpen | common/name.c:239-320 | name, '@', type, record length and access of an open, or an error |
| NameLines.LettersOpen | common/name.c:239-320 | an open with any letters as options, in any order: understood iff all are known, with one type and one access at most, and then with exactly this type, access and N |
| NameLines.RelativeOpen | common/name.c:264-275 | an L behind other options: the record length, low byte first, and the access X if none is given |
| NameLines.LoadLines | common/name.c:369-384 | of a LOAD only a '$' at the start makes a directory, else it means what an open means |
| NameRuns.MoveLine | common/name.c:344-352 | the line is at the end of the buffer, followed by a NUL |
| NameRuns.ParseFilename | common/name.c:336-386 | the name info stands for what the line means, with an open's access and its N, its names behind what the parser consumes of the moved line; a fault iff the line is as long as the buffer or an empty name follows a carriage return |
| NameRuns.CommandCount | common/name.c:218-234 | a command has one to five names |
| NameRuns.OptionsSound | common/name.c:252-312 | only an L option sets a record length, and only the four type letters become a type |
| NameRuns.RoomNeeded | common/name.c:344-352 | 5 free bytes are enough for a command and for a directory, 10 for an open, 11 where an int has 16 bits |
| NameRuns.EnoughRoom | common/name.c:412-467 | with that room every name is copied before it is overwritten |
| NameRuns.SendName | firmware/file.c:388-397 | parsing and assembling in one buffer: with the room, exactly the packet for what the line means; without it, what the assembly makes of the parsed buffer; faults as specified |
| NameRuns.LineExact | common/name.c:336-467 | for every line that is no disk copy, on the buffer as parsed, exactly when its packet comes out right: with any drives by the room, without named drives by the bytes |
| NameRuns.PlainLineExact | common/name.c:336-467 | for every plain file name, the packet is the one for the line iff there are two free bytes, or one and the name begins with 255 |
| NameRuns.CommandClean | common/name.c:153-236 | all names of a command that is not binary survive the transport |
| NameRuns.LineDelivered | common/name.c:524-563 | for every line, the server reads exactly the names, type and record length the firmware parsed, iff the record length is printed as it is |
| NameLines.OpenArrives | common/name.c:239-563 | an open printed with a name and letters arrives at the server with this name and the code of its type |
| NameLines.RelativeArrives | common/name.c:239-563 | the same for a relative file and its record length, if this is printed as it is |
| NameLines.CommandArrives | common/name.c:153-563 | a command printed with a target and names arrives with them |
| NameRuns.DiskCopyMisread | common/name.c:430-437 | what the server reads of a disk copy, for all drives: of a target other than 0 nothing but the source drive, of target 0 a name without text on drive 42 and the source drive |
| NameRuns.DiskCopyNeverDelivered | common/name.c:430-437 | in both forms, with and without names, the server never has the two drives of a disk copy |
| NameRuns.Deliver | common/name.c:336-563 | from the command buffer to the server's list of names: whenever there is room, its pointers lead to the names that the line means |
| Crc16.Update | firmware/nvconfig.c:148-160 | the loop of eight shifts computes the specified step |
| Crc16.CheckValue | firmware/nvconfig.c:148-160 | the checksum of the characters "123" is 0x7a75 |
| Crc16.ShiftXorBijective | firmware/nvconfig.c:152-157 | the shift and xor step can be undone from either side |
| Crc16.ShiftXorLinear | firmware/nvconfig.c:152-157 | the step commutes with xor |
| Crc16.CrcInjective | firmware/nvconfig.c:231-241 | equal bytes keep different checksums different |
| Crc16.PairDetected | firmware/nvconfig.c:148-160 | two different pairs of bytes lead to different checksums |
| Crc16.DamageDetected | firmware/nvconfig.c:231-270 | contents that differ in one byte or within two adjacent bytes never have the same checksum |
| Crc16.BurstDetected | firmware/nvconfig.c:148-160 | from the same checksum, three bytes that differ in a burst of at most 16 bits lead to different checksums |
| Crc16.BurstFound | firmware/nvconfig.c:231-241 | contents that differ in a burst of at most 16 bits across three bytes never have the same checksum |
| NvConfig.DefaultSplit | firmware/nvconfig.c:138-141 | the default block size fits the memory iff the last address is a multiple of three and a third of it is enough for a block |
| NvConfig.RoomLeft | firmware/nvconfig.c:335-376 | exactly as many blocks fit as addresses 1, 1 + NV_BLK_SIZE and so on are within NV_MEM_SIZE, one in any case |
| NvConfig.SizeCovers | firmware/nvconfig.c:397-418 | the size that is stored reaches from the size field up to the last data byte; the data are the three values, or 42 for the name "CMN" |
| NvConfig.CrcBytesInjective | firmware/nvconfig.c:246-270 | the two bytes stored keep the whole checksum |
| NvConfig.DamageRejected | firmware/nvconfig.c:246-270 | after damage to one byte or two adjacent ones that spares the size field, a block is accepted iff nothing of the checksum or behind the size field was hit |
| NvConfig.Store.DamagedChain | firmware/nvconfig.c:275-304 | with such damage in one block the blocks in front of it are a chain that ends at a place without a valid block, with the same entries for their names |
| NvConfig.Store.Damage | firmware/nvconfig.c:246-304 | two adjacent bytes of the memory are changed by any masks: from the first block on with a changed byte that its checksum covers the names are lost, and otherwise nothing is, as long as links, sizes and the place behind an open chain are left alone |
| NvConfig.Store.CalcCrc | firmware/nvconfig.c:231-241 | the checksum of the bytes in memory |
| NvConfig.Store.IsValidBlock | firmware/nvconfig.c:246-270 | true iff the size is possible and the checksum over it is the one stored, for intact and damaged blocks |
| NvConfig.Store.ReadStr | firmware/nvconfig.c:218-227 | reads the string up to its NUL |
| NvConfig.Store.WriteWord | firmware/nvconfig.c:173-176 | two bytes are written, nothing else changes |
| NvConfig.Store.WriteStr | firmware/nvconfig.c:204-213 | the string with its NUL is written, nothing else changes |
| NvConfig.Store.BlockFound | firmware/nvconfig.c:275-304 | what is read at each block of the chain: valid, its link, its name |
| NvConfig.Store.Locate | firmware/nvconfig.c:275-304 | ends, and finds the block of the name, 0 iff there is none, also in a chain that ends at a damaged block |
| NvConfig.Store.CreateEntry | firmware/nvconfig.c:309-329 | the new block is linked behind the last one and has its name; nothing else changes |
| NvConfig.Store.FindEnd | firmware/nvconfig.c:335-376 | the last valid block of the chain, and the place behind it: that of a damaged block, or a new one unless the memory is full |
| NvConfig.Store.SaveAddr | firmware/nvconfig.c:335-376 | the block of the name, a new one at the end of the chain or over a damaged one, or 0 without any change when the memory is full |
| NvConfig.Store.FillBlock | firmware/nvconfig.c:380-433 | the block holds name and configuration, with the size and the checksum of everything up to its last data byte; nothing else changes |
| NvConfig.Store.Overwritten | firmware/nvconfig.c:380-433 | writing one block again leaves the chain as it is except for this name |
| NvConfig.Store.Relinked | firmware/nvconfig.c:309-329 | linking a block anew does not invalidate it |
| NvConfig.Store.Appended | firmware/nvconfig.c:309-376 | a new block behind the chain, or in place of a damaged one, extends it by its name and ends it regularly; the others keep theirs |
| NvConfig.Store.Save | firmware/nvconfig.c:380-433 | fails without any change iff there is no block and no room; else the map is updated at this name and nowhere else, and the chain stays intact, or is so again when a damaged block was overwritten |
| NvConfig.Store.Restore | firmware/nvconfig.c:438-498 | fails iff nothing is stored under the name; else the stored values, none of them for the common block |
| NvConfig.StoreRun | firmware/nvconfig.c:380-498 | from erased memory, over every sequence of saves and of such damages, each save fails and each restore answers as the list of entries says, which a damage cuts off at the first block it hits |
| NvConfig.DamageLoses | firmware/nvconfig.c:246-304 | damage to a block's checksum, or to a byte from its version to its last data byte: its name is missing afterwards, and so are those behind it |
| NvConfig.DamageHarmless | firmware/nvconfig.c:246-304 | damage to none of these bytes changes nothing that is stored |
| NvConfig.LastSave | firmware/nvconfig.c:438-498 | what is stored under a name is what was saved last under it, whatever was saved under others or damaged |
| NvConfig.StoredStays | firmware/nvconfig.c:380-433 | a block keeps its name over every run that damages no covered byte of it or of a block in front of it |
| NvConfig.StoredNames | firmware/nvconfig.c:335-376 | there are never more names than blocks, no name has two, and each has its entry |
| MergeRepairs.OthersAreVotes | imgtool/imgtool.c:228-246 | the score of a good copy is the number of the other good copies with its content |
| MergeRepairs.VotesAre | imgtool/imgtool.c:228-246 | the votes for a content are the number of images that have read it |
| MergeRepairs.BadCodes | imgtool/imgtool.c:53-59 | all codes but 0 and 1 mark a bad block |
| MergeRepairs.ComparePair | imgtool/imgtool.c:228-246 | one step of the pairwise loop, for both sides of the pair |
| MergeRepairs.ScoreBlock | imgtool/imgtool.c:228-246 | after the pairwise loop each image's score counts the others that agree, and the block is weak iff two good copies differ |
| MergeRepairs.TopScoreWins | imgtool/imgtool.c:228-288 | a positive top score belongs to a good copy whose content has as many votes as any |
| MergeRepairs.PickWeak | imgtool/imgtool.c:269-288 | the first image with the highest score, the first one at all if nobody agrees |
| MergeRepairs.PickBest | imgtool/imgtool.c:292-318 | the first good copy, else the first not marked bad, else the first |
| MergeRepairs.MergeBlock | imgtool/imgtool.c:265-319 | the merged block and its error code are a right choice |
| MergeRepairs.MergeRepair | imgtool/imgtool.c:162-319 | -1 for one image or different types, whatever their sizes; else every block of the result is a right choice |
| MergeRepairs.StrongChoice | imgtool/imgtool.c:292-318 | when all good copies are alike: their content as good; without one the first copy with code 0; without that the first image's copy and code |
| MergeRepairs.WeakChoice | imgtool/imgtool.c:265-290 | when good copies differ: the first of the contents that most images, and at least two, have read, or the first image's copy; the code for weak blocks |
| MergeRepairs.BadIffBadEverywhere | imgtool/imgtool.c:265-319 | unless weak blocks are to be marked, marked bad iff bad in every image |
| MergeRepairs.WeakChoiceRead | imgtool/imgtool.c:265-290 | a weak block gets a content some image has read iff two images agree on a copy or the first image's content was read |
| MergeRepairs.WeakPicksUnread | imgtool/imgtool.c:265-290 | three images for which it gets a content nobody has read |

## Left out

- Channels.Channel.OnPull: `last_pull_errorno` is not kept.
- Channels.Channel.OnPush: `last_push_errorno` is not kept.
- Channels.Channel.Put: the push error that `channel_put` returns is left out.
- Channels.Channel.Preload: zero length packets and the non-blocking return -1 are left out, as the server's replies to a reader are not empty here; so in ConvertFirst and ConvertSecond.
- Channels.Channel.ConvertFirst: the branch for a zero length packet is left out.
- Channels.Channel.ConvertSecond: the branch for a zero length packet is left out.
- Channels.Channel.Flush: a reader that is flushed in the middle of its stream and read again is not followed.
- Channels.Channel.Get: not stated for error replies and empty packets on a read channel, which the channel passes on to its caller in other ways; reading on behind the end of the stream is excluded as well.
- Channels.Channel.Pull: read/write channels, non-blocking reads and the provider shortcuts for get and put are not modelled; `channel_reopen` and the table of channels neither.
- Endpoints.Endpoint.Step: one poll of one exchange, without the frames and slots of `serial_delay`, which the serial part has.
- Endpoints.Endpoint.Submit: the wire between a channel and its server is one exchange at a time with the server's answers as a parameter; that the line itself keeps packets intact is stated in the serial part.
- SerialTransmit.Transmitter.Delay: an FS_SYNC that comes in is a decision of the environment; the receiver's part only counts it, and the mirroring is `EchoSync`.
- SerialReceive.Receiver.Register: requests are made one after the other, not from within a callback; `serial_submit_call_cmd` and `serial_lock` are not modelled.
- SerialReceiveRuns.ReceiveRun: requests in runs are for channels 0 to 127; the source only reports negative ones.
- SerialReceive.Receiver.PushData: after a fault nothing is known any more; what a callback does with the packet, and the packet's use by its owner in the meantime, is not part of the model.
- InDevices.InDevice.Loop: dispatching is recording the frame; what the server does with it is not part of the model.
- Framing.RoundTripExact: nothing is assumed to be lost or changed on the line.
- DirConverter.GetLineno: the text line that `directory_converter` makes around the block count is a parameter of the channel.
- WildcardLimits.DecidedExactly: the names that are refused need one character that the pattern does not use.
- Wildcard.AdvancedDecides: for names that hold a `*` themselves only patterns with at most one star are decided.
- Wildcard.ComparePattern: completeness of the advanced branch is that of `AdvancedDecides`; `match_pattern`, `classic_dirmatch` and the character set conversion are not modelled.
- NamePackets.ProcessOptions: what follows a packet in memory is taken as zero; a malformed option string can make the code read there. `sscanf` overflowing an int is not modelled.
- NameAssembly.AssembleFilenamePacket: the names are copied within the buffer as `memmove` does.
- NameParsing.ParseDrive: what the code does after a fault, with the byte in front of the text changed, is not followed; a `long` has 32 bits.
- NameParsing.FindDriveCopy: the digits are looked at before the bytes behind them, so that the model does not read behind the NUL; the answer is the same.
- NameRooms.RoomExact: a name that begins with the number of its own drive may be hit without harm, and a header may reach into the names; for these the condition is that of `ListExact`, which is stated for lists without named drives.
- NameRuns.ParseFilename: the table of command names is a parameter, and the byte behind the buffer is a NUL, as it is in the firmware's command buffer.
- NameRuns.SendName: what the callers of the parser do between parsing and assembling, such as filling in the last used drive, is not modelled.
- NameRuns.LineDelivered: the binary commands P and T, whose parameters may contain NULs and are not sent as names, are excluded.
- NvConfig.DamageRejected: damage to the size field is not covered, because it changes what the checksum is computed over, and damage to the link alone is not, because nothing checks it.
- NvConfig.Store.Damage: damage to links and sizes of blocks in use, and to the place that an open chain leads to, which could make a damaged block valid again, is not followed; nor are bursts over three bytes.
- NameLines.ShownParsed: names that cannot be written so, such as names with a comma, are not printed.
- NvConfig.Store.Save: writes to the memory do not fail, and the debug output is left out.
- NvConfig.Store.Restore: blocks of an older firmware version do not occur, as all blocks are written by the modelled code.
- MergeRepairs.MergeRepair: the log, the error table's file layout and the output file are left out.
- Bus hardware, timing, providers and file handlers of the server, relative files, direct block access, the command line tools: input and output or code outside of these parts.
